/**
  Two encodings of an assignable device interface: interrupt vectors as runs of consecutive numbers, and queues as
  chunks.
 */
module Adi {
  import opened Numbers

  // Vector chunks

  /** struct virtchnl2_vector_chunk: `num` vectors from `startVec` on, for the indices from `startIndex` on. */
  datatype Chunk = Chunk(startVec: nat, startIndex: nat, num: nat)

  /** The vectors of one chunk. */
  function Run(start: nat, num: nat): (s: seq<nat>)
    ensures |s| == num
  {
    seq(num, i requires 0 <= i < num => start + i)
  }

  /** The vectors that a list of chunks stands for. */
  function Expand(chunks: seq<Chunk>): seq<nat>
  {
    if chunks == [] then []
    else Expand(chunks[..|chunks| - 1]) + Run(chunks[|chunks| - 1].startVec, chunks[|chunks| - 1].num)
  }

  /** Chunks follow each other in index order, and none could have taken in the first vector of the next. */
  ghost predicate Maximal(chunks: seq<Chunk>, from: nat)
  {
    && (forall k :: 0 <= k < |chunks| ==> chunks[k].num > 0)
    && (chunks != [] ==> chunks[0].startIndex == from)
    && forall k :: 1 <= k < |chunks| ==>
         && chunks[k].startIndex == chunks[k - 1].startIndex + chunks[k - 1].num
         && chunks[k].startVec != chunks[k - 1].startVec + chunks[k - 1].num
  }

  /** How often a vector is not the one before it plus one. */
  function Breaks(s: seq<nat>): (n: nat)
  {
    if |s| < 2 then 0 else Breaks(s[..|s| - 1]) + if s[|s| - 2] + 1 == s[|s| - 1] then 0 else 1
  }

  /** A run adds no break of its own, but may add one in front of it. */
  lemma {:induction false} BreaksRun(s: seq<nat>, start: nat, num: nat)
    requires num > 0
    ensures Breaks(s + Run(start, num)) == Breaks(s) + if s != [] && s[|s| - 1] + 1 != start then 1 else 0
  {
    var t := s + Run(start, num);
    if num == 1 {
      assert t[..|t| - 1] == s;
    } else {
      BreaksRun(s, start, num - 1);
      assert t[..|t| - 1] == s + Run(start, num - 1);
    }
  }

  lemma {:induction false} ExpandLength(chunks: seq<Chunk>)
    requires (forall k :: 0 <= k < |chunks| ==> chunks[k].num > 0) && chunks != []
    ensures Expand(chunks) != []
    ensures var c := chunks[|chunks| - 1]; Expand(chunks)[|Expand(chunks)| - 1] == c.startVec + c.num - 1
  {
  }

  lemma NoBreaks()
    ensures Breaks([]) == 0
  {
  }

  lemma MaximalInit(chunks: seq<Chunk>, from: nat)
    requires |chunks| > 1
    ensures Maximal(chunks, from) ==>
      var init, c := chunks[..|chunks| - 1], chunks[|chunks| - 1];
      Maximal(init, from) && c.startVec != init[|init| - 1].startVec + init[|init| - 1].num
  {
  }

  /** Any list of chunks is longer than the breaks in its vectors, and a maximal one is longer by one only. */
  lemma {:induction false} ChunksAndBreaks(chunks: seq<Chunk>, from: nat)
    requires (forall k :: 0 <= k < |chunks| ==> chunks[k].num > 0) && chunks != []
    ensures Breaks(Expand(chunks)) + 1 <= |chunks|
    ensures Maximal(chunks, from) ==> Breaks(Expand(chunks)) + 1 == |chunks|
  {
    hide Breaks, Maximal;
    var init, c := chunks[..|chunks| - 1], chunks[|chunks| - 1];
    BreaksRun(Expand(init), c.startVec, c.num);
    NoBreaks();
    if init != [] {
      ChunksAndBreaks(init, from);
      ExpandLength(init);
      MaximalInit(chunks, from);
    }
  }

  /** No other list of chunks for the same vectors is shorter than a maximal one. */
  lemma MaximalIsMinimal(chunks: seq<Chunk>, others: seq<Chunk>, from: nat)
    requires Maximal(chunks, from) && (forall k :: 0 <= k < |others| ==> others[k].num > 0)
    requires Expand(chunks) == Expand(others)
    ensures |chunks| <= |others|
  {
    if chunks != [] {
      ExpandLength(chunks);
      ChunksAndBreaks(chunks, from);
      ChunksAndBreaks(others, from);
    }
  }

  const MAX_QUEUES: nat := 64

  /** The physical vectors behind the vector indices of the interface. */
  function Physical(entries: seq<nat>, indexes: seq<nat>): (s: seq<nat>)
    requires forall i :: 0 <= i < |indexes| ==> indexes[i] < |entries|
    ensures |s| == |indexes|
  {
    seq(|indexes|, i requires 0 <= i < |indexes| => entries[indexes[i]])
  }

  /** After the chunks for the vectors 1 to `upTo` - 1. */
  ghost predicate Chunked(chunks: seq<Chunk>, phys: seq<nat>, upTo: nat)
  {
    && 1 <= upTo <= |phys| && Maximal(chunks, 1) && Expand(chunks) == phys[1..upTo] && |chunks| < upTo
    && (chunks != [] ==> var c := chunks[|chunks| - 1]; c.startIndex + c.num == upTo)
    && (chunks == [] ==> upTo == 1)
    && (chunks != [] && upTo < |phys| ==>
          var c := chunks[|chunks| - 1]; c.startVec + c.num != phys[upTo])
  }

  /** The next run, from `l` to `r`, becomes the next chunk. */
  lemma ChunkedStep(chunks: seq<Chunk>, phys: seq<nat>, l: nat, r: nat)
    requires Chunked(chunks, phys, l) && l <= r < |phys|
    requires forall i :: l <= i <= r ==> phys[i] == phys[l] + (i - l)
    requires r + 1 < |phys| ==> phys[r] + 1 != phys[r + 1]
    ensures Chunked(chunks + [Chunk(phys[l], l, r - l + 1)], phys, r + 1)
  {
    hide Maximal, Expand, Run;
    var c := Chunk(phys[l], l, r - l + 1);
    ExpandStep(chunks, c);
    RunIs(phys, l, r);
    assert phys[1..r + 1] == phys[1..l] + phys[l..r + 1];
    MaximalStep(chunks, c, 1);
  }

  lemma ExpandStep(chunks: seq<Chunk>, c: Chunk)
    ensures Expand(chunks + [c]) == Expand(chunks) + Run(c.startVec, c.num)
  {
    assert (chunks + [c])[..|chunks|] == chunks;
  }

  lemma RunIs(phys: seq<nat>, l: nat, r: nat)
    requires l <= r < |phys| && forall i :: l <= i <= r ==> phys[i] == phys[l] + (i - l)
    ensures phys[l..r + 1] == Run(phys[l], r - l + 1)
  {
  }

  lemma MaximalStep(chunks: seq<Chunk>, c: Chunk, from: nat)
    requires Maximal(chunks, from) && c.num > 0 && (chunks == [] ==> c.startIndex == from)
    requires chunks != [] ==>
      var b := chunks[|chunks| - 1]; c.startIndex == b.startIndex + b.num && c.startVec != b.startVec + b.num
    ensures Maximal(chunks + [c], from)
  {
    var after := chunks + [c];
    forall k | 1 <= k < |after|
      ensures after[k].startIndex == after[k - 1].startIndex + after[k - 1].num
      ensures after[k].startVec != after[k - 1].startVec + after[k - 1].num
    {
      assert after[k - 1] == chunks[k - 1];
    }
  }

  /** The vectors up to `upTo` are those their chunks say. */
  ghost predicate Matching(chunks: seq<Chunk>, phys: seq<nat>, upTo: nat)
  {
    && upTo <= |phys| && (forall c :: 0 <= c < |chunks| ==> chunks[c].startIndex + chunks[c].num <= upTo)
    && forall c, i :: 0 <= c < |chunks| && chunks[c].startIndex <= i < chunks[c].startIndex + chunks[c].num ==>
         phys[i] == chunks[c].startVec + (i - chunks[c].startIndex)
  }

  lemma MatchingStep(chunks: seq<Chunk>, phys: seq<nat>, l: nat, r: nat)
    requires Matching(chunks, phys, l) && l <= r < |phys|
    requires forall i :: l <= i <= r ==> phys[i] == phys[l] + (i - l)
    ensures Matching(chunks + [Chunk(phys[l], l, r - l + 1)], phys, r + 1)
  {
    var after := chunks + [Chunk(phys[l], l, r - l + 1)];
    forall c, i | 0 <= c < |after| && after[c].startIndex <= i < after[c].startIndex + after[c].num
      ensures i < |phys| && phys[i] == after[c].startVec + (i - after[c].startIndex)
    {
      if c < |chunks| {
        assert after[c] == chunks[c] && phys[i] == phys[i];
      }
    }
  }

  /** The data queue vectors are all but the first, which is the mailbox's. */
  method FillDataVectors(entries: seq<nat>, indexes: seq<nat>, dataIds: array<nat>)
    requires forall i :: 0 <= i < |indexes| ==> indexes[i] < |entries|
    requires 1 <= |indexes| <= dataIds.Length
    modifies dataIds
    ensures dataIds[..|indexes| - 1] == Physical(entries, indexes)[1..]
    ensures dataIds[|indexes| - 1..] == old(dataIds[|indexes| - 1..])
  {
    for i := 1 to |indexes|
      invariant forall k :: 0 <= k < i - 1 ==> dataIds[k] == entries[indexes[k + 1]]
      invariant forall k :: i - 1 <= k < dataIds.Length ==> dataIds[k] == old(dataIds[k])
    {
      dataIds[i - 1] := entries[indexes[i]];
    }
  }

  /** The end of the run of consecutive vectors that begins at `l`. */
  method RunEnd(entries: seq<nat>, indexes: seq<nat>, l: nat) returns (r: nat)
    requires (forall i :: 0 <= i < |indexes| ==> indexes[i] < |entries|) && l < |indexes|
    ensures l <= r < |indexes|
    ensures forall i :: l <= i <= r ==> Physical(entries, indexes)[i] == Physical(entries, indexes)[l] + (i - l)
    ensures r + 1 < |indexes| ==> Physical(entries, indexes)[r] + 1 != Physical(entries, indexes)[r + 1]
  {
    r := l;
    while r + 1 < |indexes| && entries[indexes[r]] + 1 == entries[indexes[r + 1]]
      invariant l <= r < |indexes|
      invariant forall i :: l <= i <= r ==> entries[indexes[i]] == entries[indexes[l]] + (i - l)
    {
      r := r + 1;
    }
  }

  /** idpf_adi_prep_vec_chunks(); the caller's message has room for the chunks.  They follow one another from index 1 to
      the last index, each is a run of consecutive vectors, and none could have been longer. */
  method PrepVecChunks(entries: seq<nat>, indexes: seq<nat>, dataIds: array<nat>, vchunks: array<Chunk>)
      returns (ok: bool, n: nat)
    requires forall i :: 0 <= i < |indexes| ==> indexes[i] < |entries|
    requires dataIds.Length == MAX_QUEUES && vchunks.Length >= MAX_QUEUES
    modifies dataIds, vchunks
    ensures ok == (1 < |indexes| <= 64) && n <= vchunks.Length
    ensures ok ==>
      var chunks := vchunks[..n];
      && chunks != [] && chunks[0].startIndex == 1 && chunks[n - 1].startIndex + chunks[n - 1].num == |indexes|
      && (forall c :: 0 <= c < n ==> chunks[c].num > 0)
      && (forall b, c :: 0 <= b < c == b + 1 < n ==>
            && chunks[c].startIndex == chunks[b].startIndex + chunks[b].num
            && chunks[c].startVec != chunks[b].startVec + chunks[b].num)
      && (forall c :: 0 <= c < n ==> chunks[c].startIndex + chunks[c].num <= |indexes|)
      && (forall c, i :: 0 <= c < n && chunks[c].startIndex <= i < chunks[c].startIndex + chunks[c].num ==>
            entries[indexes[i]] == chunks[c].startVec + (i - chunks[c].startIndex))
      && Maximal(chunks, 1) && Expand(chunks) == Physical(entries, indexes)[1..]
    ensures ok ==> forall i :: 1 <= i < |indexes| ==> dataIds[i - 1] == entries[indexes[i]]
    ensures ok ==> dataIds[|indexes| - 1..] == old(dataIds[|indexes| - 1..])
    ensures !ok ==> n == 0 && dataIds[..] == old(dataIds[..]) && vchunks[..] == old(vchunks[..])
  {
    hide Chunked, Matching, Maximal, Expand;
    n := 0;
    var next: nat := 1;
    if |indexes| - next <= 0 || |indexes| - next >= MAX_QUEUES {
      return false, 0;
    }
    FillDataVectors(entries, indexes, dataIds);
    n := FillChunks(entries, indexes, vchunks);
    ghost var phys, chunks := Physical(entries, indexes), vchunks[..n];
    ChunkedEnd(chunks, phys);
    MatchingEnd(chunks, entries, indexes);
    return true, n;
  }

  /** The loop that searches for runs of consecutive vectors. */
  method FillChunks(entries: seq<nat>, indexes: seq<nat>, vchunks: array<Chunk>) returns (n: nat)
    requires forall i :: 0 <= i < |indexes| ==> indexes[i] < |entries|
    requires 1 < |indexes| <= MAX_QUEUES <= vchunks.Length
    modifies vchunks
    ensures n <= vchunks.Length && Chunked(vchunks[..n], Physical(entries, indexes), |indexes|)
    ensures Matching(vchunks[..n], Physical(entries, indexes), |indexes|)
  {
    hide Chunked, Matching;
    n := 0;
    var next: nat := 1;
    ghost var phys := Physical(entries, indexes);
    ChunkedStart(phys);
    assert vchunks[..0] == [];
    while next < |indexes|
      invariant 1 <= next <= |indexes| && n < next
      invariant Chunked(vchunks[..n], phys, next) && Matching(vchunks[..n], phys, next)
      modifies vchunks
    {
      var r := RunEnd(entries, indexes, next);
      ghost var was := vchunks[..n];
      ChunkedStep(was, phys, next, r);
      MatchingStep(was, phys, next, r);
      ChunkedSize(was, phys, next);
      vchunks[n] := Chunk(entries[indexes[next]], next, r - next + 1);
      assert vchunks[..n + 1] == was + [vchunks[n]];
      n := n + 1;
      next := r + 1;
    }
  }

  lemma MatchingEnd(chunks: seq<Chunk>, entries: seq<nat>, indexes: seq<nat>)
    requires forall i :: 0 <= i < |indexes| ==> indexes[i] < |entries|
    requires Matching(chunks, Physical(entries, indexes), |indexes|)
    ensures forall c :: 0 <= c < |chunks| ==> chunks[c].startIndex + chunks[c].num <= |indexes|
    ensures forall c, i :: 0 <= c < |chunks| && chunks[c].startIndex <= i < chunks[c].startIndex + chunks[c].num ==>
      entries[indexes[i]] == chunks[c].startVec + (i - chunks[c].startIndex)
  {
    var phys := Physical(entries, indexes);
    forall c, i | 0 <= c < |chunks| && chunks[c].startIndex <= i < chunks[c].startIndex + chunks[c].num
      ensures i < |indexes| && entries[indexes[i]] == chunks[c].startVec + (i - chunks[c].startIndex)
    {
      assert phys[i] == entries[indexes[i]];
    }
  }

  lemma ChunkedStart(phys: seq<nat>)
    requires phys != []
    ensures Chunked([], phys, 1) && Matching([], phys, 1)
  {
  }

  lemma ChunkedSize(chunks: seq<Chunk>, phys: seq<nat>, upTo: nat)
    requires Chunked(chunks, phys, upTo)
    ensures |chunks| < upTo
  {
  }

  lemma ChunkedEnd(chunks: seq<Chunk>, phys: seq<nat>)
    requires Chunked(chunks, phys, |phys|)
    ensures Maximal(chunks, 1) && Expand(chunks) == phys[1..]
    ensures |phys| > 1 ==>
      && chunks != [] && chunks[|chunks| - 1].startIndex + chunks[|chunks| - 1].num == |phys|
      && chunks[0].startIndex == 1
    ensures forall b, c :: 0 <= b < c == b + 1 < |chunks| ==>
      && chunks[c].startIndex == chunks[b].startIndex + chunks[b].num
      && chunks[c].startVec != chunks[b].startVec + chunks[b].num
    ensures forall c :: 0 <= c < |chunks| ==> chunks[c].num > 0
  {
    assert phys[1..|phys|] == phys[1..];
  }

  // Queue chunks

  const U32: nat := 0x1_0000_0000
  const U64: nat := 0x1_0000_0000_0000_0000

  /** struct virtchnl2_queue_reg_chunk */
  datatype QueueChunk = QueueChunk(kind: nat, start: nat, num: nat, reg: nat, spacing: nat)

  /** struct idpf_adi_q */
  datatype Queue = Queue(qid: nat, tail: nat)

  /** Queue `i` of a chunk. */
  function Nth(c: QueueChunk, i: nat): Queue
  {
    Queue((c.start + i) % U32, (c.reg + i * c.spacing) % U64)
  }

  /** The queues of one chunk: ids count up, tail registers are evenly spaced. */
  function Queues(c: QueueChunk): (s: seq<Queue>)
    ensures |s| == c.num
  {
    seq(c.num, i requires 0 <= i < c.num => Nth(c, i))
  }

  /** All queues of one kind, chunk after chunk. */
  function OfKind(chunks: seq<QueueChunk>, kind: nat): seq<Queue>
  {
    if chunks == [] then []
    else OfKind(chunks[..|chunks| - 1], kind) +
         if chunks[|chunks| - 1].kind == kind then Queues(chunks[|chunks| - 1]) else []
  }

  /** One chunk's queues into the slots from `filled` on, as far as they go. */
  method FillChunk(q: array<Queue>, capacity: nat, filled: nat, c: QueueChunk) returns (n: nat)
    requires filled <= capacity <= q.Length && c.start < U32 && c.reg < U64
    modifies q
    ensures n == Min(c.num, capacity - filled)
    ensures q[..filled + n] == old(q[..filled]) + Queues(c)[..n] && q[filled + n..] == old(q[filled + n..])
  {
    hide Nth;
    FirstQueue(c);
    var qid: nat, reg: nat := c.start, c.reg;
    var i := 0;
    while i < c.num
      invariant i <= Min(c.num, capacity - filled)
      invariant Queue(qid, reg) == Nth(c, i)
      invariant forall k :: 0 <= k < filled ==> q[k] == old(q[k])
      invariant forall k :: filled <= k < filled + i ==> q[k] == Nth(c, k - filled)
      invariant forall k :: filled + i <= k < q.Length ==> q[k] == old(q[k])
    {
      if filled + i < capacity {
        q[filled + i] := Queue(qid, reg);
        NextQueue(c, i);
        reg := (reg + c.spacing) % U64;
        qid := (qid + 1) % U32;
      } else {
        break;
      }
      i := i + 1;
    }
    n := i;
  }

  lemma Wrap32(x: nat, y: nat)
    ensures (x % U32 + y) % U32 == (x + y) % U32
  {
  }

  lemma Wrap64(x: nat, y: nat)
    ensures (x % U64 + y) % U64 == (x + y) % U64
  {
  }

  lemma NextProduct(i: nat, n: nat)
    ensures (i + 1) * n == i * n + n && 0 * n == 0
  {
  }

  lemma FirstQueue(c: QueueChunk)
    requires c.start < U32 && c.reg < U64
    ensures Nth(c, 0) == Queue(c.start, c.reg)
  {
    NextProduct(0, c.spacing);
  }

  lemma NextQueue(c: QueueChunk, i: nat)
    ensures Nth(c, i + 1) == Queue((Nth(c, i).qid + 1) % U32, (Nth(c, i).tail + c.spacing) % U64)
  {
    var product := i * c.spacing;
    NextProduct(i, c.spacing);
    assert Nth(c, i + 1) == Queue((c.start + i + 1) % U32, (c.reg + product + c.spacing) % U64);
    Wrap32(c.start + i, 1);
    Wrap64(c.reg + product, c.spacing);
  }

  /** Where the queues of each chunk begin among all queues of one kind. */
  ghost predicate Starts(first: seq<nat>, chunks: seq<QueueChunk>, kind: nat)
  {
    && |first| == |chunks| + 1 && first[0] == 0
    && forall c :: 0 <= c < |chunks| ==> first[c + 1] == first[c] + if chunks[c].kind == kind then chunks[c].num else 0
  }

  /** Among all queues of one kind, those of a chunk lie between its start and the start of the next. */
  ghost predicate Positions(first: seq<nat>, chunks: seq<QueueChunk>, all: seq<Queue>, kind: nat)
  {
    && Starts(first, chunks, kind) && first[|chunks|] == |all|
    && (forall c :: 0 <= c < |chunks| && chunks[c].kind == kind ==> first[c] + chunks[c].num <= |all|)
    && forall c, p :: 0 <= c < |chunks| && chunks[c].kind == kind && first[c] <= p < first[c] + chunks[c].num ==>
         all[p] == Nth(chunks[c], p - first[c])
  }

  lemma PositionsStep(first: seq<nat>, chunks: seq<QueueChunk>, all: seq<Queue>, kind: nat, c: QueueChunk,
                      more: seq<Queue>)
    requires Positions(first, chunks, all, kind) && more == if c.kind == kind then Queues(c) else []
    ensures first != [] && Positions(first + [first[|chunks|] + |more|], chunks + [c], all + more, kind)
  {
    hide Nth;
    var first', chunks', all' := first + [first[|chunks|] + |more|], chunks + [c], all + more;
    assert Starts(first', chunks', kind);
    forall k, p | 0 <= k < |chunks'| && chunks'[k].kind == kind && first'[k] <= p < first'[k] + chunks'[k].num
      ensures p < |all'| && all'[p] == Nth(chunks'[k], p - first'[k])
    {
      if k < |chunks| {
        assert chunks'[k] == chunks[k] && first'[k] == first[k];
        assert all'[p] == all[p];
      } else {
        assert all'[p] == more[p - |all|];
      }
    }
  }

  /** The positions of the queues, chunk after chunk. */
  lemma {:induction false} OfKindExact(chunks: seq<QueueChunk>, kind: nat) returns (first: seq<nat>)
    ensures Positions(first, chunks, OfKind(chunks, kind), kind)
  {
    hide Nth, Queues;
    first := [0];
    if chunks != [] {
      hide Positions;
      var init, c := chunks[..|chunks| - 1], chunks[|chunks| - 1];
      first := OfKindExact(init, kind);
      PositionsStep(first, init, OfKind(init, kind), kind, c, if c.kind == kind then Queues(c) else []);
      PositionsSize(first, init, OfKind(init, kind), kind);
      assert init + [c] == chunks;
      first := first + [first[|init|] + if c.kind == kind then c.num else 0];
    }
  }

  lemma PositionsSize(first: seq<nat>, chunks: seq<QueueChunk>, all: seq<Queue>, kind: nat)
    requires Positions(first, chunks, all, kind)
    ensures |first| == |chunks| + 1
  {
  }

  /** __idpf_adi_qid_reg_init(): the slots get the first queues of this kind, as many as there are and fit.  The ids
      of a chunk count up from its first one and its tail registers are evenly spaced; the chunk's queues begin at
      `first`, where those of the chunks before it end. */
  method InitQueues(q: array<Queue>, capacity: nat, kind: nat, chunks: seq<QueueChunk>)
      returns (filled: nat, ghost first: seq<nat>)
    requires capacity <= q.Length && forall c :: c in chunks ==> c.start < U32 && c.reg < U64
    modifies q
    ensures |first| == |chunks| + 1 && first[0] == 0
    ensures forall c :: 0 <= c < |chunks| ==>
      first[c + 1] == first[c] + if chunks[c].kind == kind then chunks[c].num else 0
    ensures filled == if capacity < first[|chunks|] then capacity else first[|chunks|]
    ensures forall c, p ::
      0 <= c < |chunks| && chunks[c].kind == kind && first[c] <= p < first[c] + chunks[c].num && p < capacity ==>
        && q[p].qid == (chunks[c].start + (p - first[c])) % 0x1_0000_0000
        && q[p].tail == (chunks[c].reg + (p - first[c]) * chunks[c].spacing) % 0x1_0000_0000_0000_0000
    ensures q[filled..] == old(q[filled..])
  {
    hide OfKind;
    filled := InitSlots(q, capacity, kind, chunks);
    first := OfKindExact(chunks, kind);
    forall c, p |
      0 <= c < |chunks| && chunks[c].kind == kind && first[c] <= p < first[c] + chunks[c].num && p < capacity
      ensures q[p] == Nth(chunks[c], p - first[c])
    {
      assert first[c] + chunks[c].num <= |OfKind(chunks, kind)|;
      assert q[p] == q[..filled][p];
    }
  }

  lemma SlotsStep(q0: seq<Queue>, q1: seq<Queue>, was: seq<Queue>, before: seq<Queue>, more: seq<Queue>, capacity: nat,
                  filled: nat, n: nat)
    requires |q0| == |q1| == |was| >= capacity && filled == Min(capacity, |before|)
    requires n == Min(|more|, capacity - filled)
    requires q0[..filled] == before[..filled] && q0[filled..] == was[filled..]
    requires q1[..filled + n] == q0[..filled] + more[..n] && q1[filled + n..] == q0[filled + n..]
    ensures filled + n == Min(capacity, |before + more|)
    ensures q1[..filled + n] == (before + more)[..filled + n] && q1[filled + n..] == was[filled + n..]
  {
    assert q0[filled + n..] == q0[filled..][n..] && was[filled + n..] == was[filled..][n..];
  }

  /** The loops of __idpf_adi_qid_reg_init() */
  method InitSlots(q: array<Queue>, capacity: nat, kind: nat, chunks: seq<QueueChunk>) returns (filled: nat)
    requires capacity <= q.Length && forall c :: c in chunks ==> c.start < U32 && c.reg < U64
    modifies q
    ensures filled == Min(capacity, |OfKind(chunks, kind)|)
    ensures q[..filled] == OfKind(chunks, kind)[..filled] && q[filled..] == old(q[filled..])
  {
    hide Queues, Nth;
    filled := 0;
    for c := 0 to |chunks|
      invariant filled == Min(capacity, |OfKind(chunks[..c], kind)|)
      invariant q[..filled] == OfKind(chunks[..c], kind)[..filled] && q[filled..] == old(q[filled..])
    {
      ghost var before := OfKind(chunks[..c], kind);
      assert chunks[..c + 1][..c] == chunks[..c];
      if chunks[c].kind == kind {
        ghost var q0 := q[..];
        var n := FillChunk(q, capacity, filled, chunks[c]);
        SlotsStep(q0, q[..], old(q[..]), before, Queues(chunks[c]), capacity, filled, n);
        filled := filled + n;
      }
    }
    assert chunks[..|chunks|] == chunks;
  }
}
