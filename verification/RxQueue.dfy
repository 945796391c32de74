/**
 The receive side of the mailbox: the device fills descriptors up to the tail, the driver takes messages out behind the
 device and gives buffers back.
 */
module RxQueues {
  import opened CtlqRings
  import opened Numbers
  import opened RxWindows

  /** A message as it is handed to the caller of idpf_ctlq_recv(). */
  datatype RxMsg = RxMsg(source: nat, opcode: nat, dataLen: bv16, status: nat, cookieHigh: nat, cookieLow: nat,
                         params: Params, payload: Dma?)

  /** The `n` slots from `from` on. */
  function Window<T>(size: nat, t: seq<T>, from: nat, n: nat): (w: seq<T>)
    requires |t| == size && from < size && n <= size
    ensures |w| == n
  {
    seq(n, k requires 0 <= k < n => t[After(size, from, k)])
  }

  lemma WindowSet<T>(size: nat, t: seq<T>, from: nat, n: nat, k: nat, x: T)
    requires |t| == size && from < size && n <= size && k < size
    ensures Window(size, t[After(size, from, k) := x], from, n) ==
            if k < n then Window(size, t, from, n)[k := x] else Window(size, t, from, n)
  {
  }

  /** The descriptor of a posted buffer. */
  predicate Filled(d: Desc, b: Dma)
  {
    && d.flags == NO_FLAGS.(buf := true, rd := true)
    && d.dataLen == b.size && d.params.word2 == b.high && d.params.word3 == b.low
  }

  /** What post and init write into a descriptor. */
  function Filling(d: Desc, b: Dma): (r: Desc)
    ensures Filled(r, b)
  {
    d.(flags := NO_FLAGS.(buf := true, rd := true), dataLen := b.size,
       params := d.params.(word2 := b.high, word3 := b.low))
  }

  /** Each buffer is in at most one slot. */
  ghost predicate Distinct(t: seq<Dma?>)
  {
    forall i, j :: 0 <= i < j < |t| && t[i] != null ==> t[i] != t[j]
  }

  /** From `ntc` on there are `live` slots with buffers; the device has used the first `done` and may use the rest. */
  ghost predicate Posted(size: nat, ntc: nat, ntp: nat, head: nat, d: seq<Desc>, t: seq<Dma?>, live: nat, done: nat)
  {
    && |d| == |t| == size && ntc < size && done <= live < size
    && ntp == After(size, ntc, live) && head == After(size, ntc, done)
    && (forall k :: 0 <= k < live ==> t[After(size, ntc, k)] != null)
    && (forall k :: done <= k < live ==>
          t[After(size, ntc, k)] != null && Filled(d[After(size, ntc, k)], t[After(size, ntc, k)]))
    && (forall k :: 0 <= k < size ==> (d[After(size, ntc, k)].flags.dd <==> k < done))
  }

  /** The device writes a message into the next posted buffer. */
  lemma PostedStep(size: nat, ntc: nat, ntp: nat, head: nat, d: seq<Desc>, t: seq<Dma?>, live: nat, done: nat, e: Desc)
    requires Posted(size, ntc, ntp, head, d, t, live, done) && head != ntp && e.flags.dd
    ensures head < size && t[head] != null && Filled(d[head], t[head])
    ensures Posted(size, ntc, ntp, After(size, head, 1), d[head := e], t, live, done + 1)
  {
  }

  /** The driver takes the oldest message; the buffer leaves the ring with it if there is data in it. */
  lemma PostedTake(size: nat, ntc: nat, ntp: nat, head: nat, d: seq<Desc>, t: seq<Dma?>, live: nat, done: nat, x: Dma?)
    requires Posted(size, ntc, ntp, head, d, t, live, done) && ntc < |d|
    requires d[ntc].flags.dd && (x == null || x == t[ntc])
    ensures done > 0 && t[ntc] != null
    ensures Posted(size, After(size, ntc, 1), ntp, head, d[ntc := ZEROED], t[ntc := x], live - 1, done - 1)
  {
    assert After(size, ntc, 0) == ntc;
    var ntc' := After(size, ntc, 1);
    forall k | 0 <= k < size
      ensures After(size, ntc', k) == After(size, ntc, if k + 1 == size then 0 else k + 1)
    {
    }
  }

  /** The message in a descriptor: with data in it the buffer goes along and only two words of context are copied. */
  function Decoded(d: Desc, b: Dma?): RxMsg
  {
    RxMsg(d.flags.source, d.opcode, d.dataLen, d.ret, d.cookieHigh, d.cookieLow,
          if d.dataLen != 0 then Params(d.params.word0, d.params.word1, 0, 0) else d.params,
          if d.dataLen != 0 then b else null)
  }

  lemma DecodedData(d: Desc, b: Dma?)
    ensures var m := Decoded(d, b);
      m.dataLen == d.dataLen && m.payload == if d.dataLen != 0 then b else null
  {
  }

  /** The messages in the first `n` descriptors from `from` on. */
  function Messages(size: nat, d: seq<Desc>, t: seq<Dma?>, from: nat, n: nat): (msgs: seq<RxMsg>)
    requires |d| == |t| == size && from < size && n <= size
    ensures |msgs| == n
  {
    seq(n, k requires 0 <= k < n => Decoded(d[After(size, from, k)], t[After(size, from, k)]))
  }

  lemma MessagesStep(size: nat, d: seq<Desc>, t: seq<Dma?>, from: nat, n: nat)
    requires |d| == |t| == size && from < size && n < size
    ensures Messages(size, d, t, from, n + 1) ==
            Messages(size, d, t, from, n) + [Decoded(d[After(size, from, n)], t[After(size, from, n)])]
  {
  }

  /** The buffers these messages carry. */
  ghost function Carried(msgs: seq<RxMsg>): multiset<Dma?>
  {
    if msgs == [] then multiset{} else Carried(msgs[..|msgs| - 1]) + One(msgs[|msgs| - 1].payload)
  }

  lemma CarriedStep(msgs: seq<RxMsg>, m: RxMsg)
    ensures Carried(msgs + [m]) == Carried(msgs) + One(m.payload)
  {
    assert (msgs + [m])[..|msgs|] == msgs;
  }

  /** They are the messages' buffers, each as often as it occurs. */
  lemma {:induction false} CarriedExact(msgs: seq<RxMsg>, payloads: seq<Dma?>, b: Dma?)
    requires |payloads| == |msgs| && forall k :: 0 <= k < |msgs| ==> payloads[k] == msgs[k].payload
    ensures Carried(msgs)[b] == if b == null then 0 else multiset(payloads)[b]
  {
    if msgs == [] {
      assert payloads == [];
    } else {
      var n := |msgs| - 1;
      CarriedExact(msgs[..n], payloads[..n], b);
      OneMore(payloads[..n], payloads[n], b);
      assert payloads == payloads[..n] + [payloads[n]];
    }
  }

  lemma OneMore(p: seq<Dma?>, x: Dma?, b: Dma?)
    ensures multiset(p + [x])[b] == multiset(p)[b] + if x == b then 1 else 0
  {
    assert multiset(p + [x]) == multiset(p) + multiset{x};
  }

  lemma CarriedNone()
    ensures Carried([]) == multiset{}
  {
  }

  /** What has become of the ring `d0`, `t0` after `msgs` have been taken out from `from` on. */
  ghost predicate Received(size: nat, d0: seq<Desc>, t0: seq<Dma?>, from: nat, d: seq<Desc>, t: seq<Dma?>,
                           msgs: seq<RxMsg>)
  {
    && Rest(d0, d, size, from, |msgs|) && Rest(t0, t, size, from, |msgs|) && |msgs| <= size
    && msgs == Messages(size, d0, t0, from, |msgs|)
    && Bufs(t0) == Bufs(t) + Carried(msgs)
    && Cleared(d, size, from, |msgs|) && Emptied(size, d0, t0, from, t, |msgs|)
    && (msgs == [] ==> d == d0 && t == t0)
  }

  /** The buffers of the first `n` slots from `from` on have left them, where the descriptor told of data. */
  ghost predicate Emptied(size: nat, d0: seq<Desc>, t0: seq<Dma?>, from: nat, t: seq<Dma?>, n: nat)
  {
    && |d0| == |t0| == |t| == size && from < size && n <= size
    && forall k :: 0 <= k < n ==>
         t[After(size, from, k)] ==
         if d0[After(size, from, k)].dataLen != 0 then null else t0[After(size, from, k)]
  }

  lemma EmptiedStep(size: nat, d0: seq<Desc>, t0: seq<Dma?>, from: nat, t: seq<Dma?>, n: nat, x: Dma?)
    requires Emptied(size, d0, t0, from, t, n) && n < size && After(size, from, n) < size
    requires var i := After(size, from, n); x == if d0[i].dataLen != 0 then null else t0[i]
    ensures Emptied(size, d0, t0, from, t[After(size, from, n) := x], n + 1)
  {
  }

  lemma EmptiedMeans(size: nat, d0: seq<Desc>, t0: seq<Dma?>, from: nat, t: seq<Dma?>, n: nat)
    requires Emptied(size, d0, t0, from, t, n) && Rest(t0, t, size, from, n)
    ensures forall i :: 0 <= i < size ==>
      t[i] == if Ahead(size, from, i) < n && d0[i].dataLen != 0 then null else t0[i]
  {
    forall i | 0 <= i < size
      ensures t[i] == if Ahead(size, from, i) < n && d0[i].dataLen != 0 then null else t0[i]
    {
      assert i == After(size, from, Ahead(size, from, i));
    }
  }

  /** The slots from `from` on, by their distance or by their numbers. */
  lemma ErrorsMean(size: nat, d: seq<Desc>, from: nat, n: nat)
    requires |d| == size && from < size && n <= size
    ensures (exists k :: 0 <= k < n && d[After(size, from, k)].flags.err) <==>
            exists i :: 0 <= i < size && Ahead(size, from, i) < n && d[i].flags.err
  {
    if k :| 0 <= k < n && d[After(size, from, k)].flags.err {
      assert Ahead(size, from, After(size, from, k)) == k;
    }
    if i :| 0 <= i < size && Ahead(size, from, i) < n && d[i].flags.err {
      assert After(size, from, Ahead(size, from, i)) == i;
    }
  }

  lemma MessagesMean(size: nat, d: seq<Desc>, t: seq<Dma?>, from: nat, n: nat)
    requires |d| == |t| == size && from < size && n <= size
    ensures forall k :: 0 <= k < n ==>
      var e, b, m := d[(from + k) % size], t[(from + k) % size], Messages(size, d, t, from, n)[k];
      && m.source == e.flags.source && m.opcode == e.opcode && m.dataLen == e.dataLen && m.status == e.ret
      && m.cookieHigh == e.cookieHigh && m.cookieLow == e.cookieLow
      && m.params.word0 == e.params.word0 && m.params.word1 == e.params.word1
      && (m.dataLen == 0 ==> m.params == e.params) && m.payload == if m.dataLen != 0 then b else null
  {
    forall k | 0 <= k < n
      ensures After(size, from, k) == (from + k) % size
      ensures Messages(size, d, t, from, n)[k] == Decoded(d[After(size, from, k)], t[After(size, from, k)])
    {
      AfterExact(size, from, k);
    }
  }

  /** A receive, said of the slots by their numbers. */
  lemma ReceivedMeans(size: nat, d0: seq<Desc>, t0: seq<Dma?>, from: nat, d: seq<Desc>, t: seq<Dma?>, msgs: seq<RxMsg>)
    requires Received(size, d0, t0, from, d, t, msgs)
    ensures |d0| == |t0| == |d| == |t| == size && from < size
    ensures After(size, from, |msgs|) == (from + |msgs|) % size
    ensures forall k :: 0 <= k < |msgs| ==>
      var e, b, m := d0[(from + k) % size], t0[(from + k) % size], msgs[k];
      && m.source == e.flags.source && m.opcode == e.opcode && m.dataLen == e.dataLen && m.status == e.ret
      && m.cookieHigh == e.cookieHigh && m.cookieLow == e.cookieLow
      && m.params.word0 == e.params.word0 && m.params.word1 == e.params.word1
      && (m.dataLen == 0 ==> m.params == e.params) && m.payload == if m.dataLen != 0 then b else null
    ensures (exists k :: 0 <= k < |msgs| && d0[After(size, from, k)].flags.err) <==>
            exists i :: 0 <= i < size && Ahead(size, from, i) < |msgs| && d0[i].flags.err
    ensures forall i :: 0 <= i < size ==>
      && d[i] == (if Ahead(size, from, i) < |msgs|
                  then Desc(Flags(false, false, 0, false, false, 0), 0, 0, 0, 0, 0, Params(0, 0, 0, 0)) else d0[i])
      && t[i] == if Ahead(size, from, i) < |msgs| && d0[i].dataLen != 0 then null else t0[i]
  {
    hide Bufs, Carried, Cleared, Emptied, Messages, Ahead;
    AfterExact(size, from, |msgs|);
    MessagesMean(size, d0, t0, from, |msgs|);
    ErrorsMean(size, d0, from, |msgs|);
    ClearedMeans(d0, d, size, from, |msgs|);
    EmptiedMeans(size, d0, t0, from, t, |msgs|);
  }

  lemma ReceivedNone(size: nat, d: seq<Desc>, t: seq<Dma?>, from: nat)
    requires |d| == |t| == size && from < size
    ensures Received(size, d, t, from, d, t, [])
  {
    hide Bufs;
  }

  lemma ReceivedStep(size: nat, d0: seq<Desc>, t0: seq<Dma?>, from: nat, d: seq<Desc>, t: seq<Dma?>, msgs: seq<RxMsg>,
                     m: RxMsg, x: Dma?)
    requires Received(size, d0, t0, from, d, t, msgs) && |msgs| < size
    requires |d| == |t| == size && After(size, from, |msgs|) < size
    requires var i := After(size, from, |msgs|);
      && m == Decoded(d[i], t[i]) && Bufs(t) == Bufs(t[i := x]) + One(m.payload)
      && x == if d[i].dataLen != 0 then null else t[i]
    ensures var i := After(size, from, |msgs|); Received(size, d0, t0, from, d[i := ZEROED], t[i := x], msgs + [m])
  {
    hide Bufs, One, Carried, Messages, Rest, Cleared, Emptied;
    ClearedStep(d, size, from, |msgs|);
    RestHere(d0, d, size, from, |msgs|);
    RestHere(t0, t, size, from, |msgs|);
    RestStep(d0, d, size, from, |msgs|, ZEROED);
    RestStep(t0, t, size, from, |msgs|, x);
    EmptiedStep(size, d0, t0, from, t, |msgs|, x);
    MessagesStep(size, d0, t0, from, |msgs|);
    CarriedStep(msgs, m);
    var i := After(size, from, |msgs|);
    assert Bufs(t[i := x]) + One(m.payload) + Carried(msgs) == Bufs(t[i := x]) + (Carried(msgs) + One(m.payload));
  }

  lemma ReceivedErrors(size: nat, d0: seq<Desc>, t0: seq<Dma?>, from: nat, d: seq<Desc>, t: seq<Dma?>, msgs: seq<RxMsg>)
    requires Received(size, d0, t0, from, d, t, msgs) && |msgs| < size
    ensures var i := After(size, from, |msgs|); i < size == |d| == |d0| && d[i] == d0[i]
  {
    RestHere(d0, d, size, from, |msgs|);
  }

  lemma DistinctDrop(t: seq<Dma?>, i: nat, x: Dma?)
    requires Distinct(t) && i < |t| && (x == null || x == t[i])
    ensures Distinct(t[i := x])
  {
  }

  // Posting buffers

  /** After `k` of the `n` free slots from `from` on: what is done so far and what is left to do make up the whole. */
  ghost predicate Posting(size: nat, from: nat, n: nat, t0: seq<Dma?>, t: seq<Dma?>, bs: seq<Dma>, i: nat, k: nat)
  {
    && |t0| == |t| == size && from < size && k <= n < size && i <= |bs| && Distinct(t)
    && (forall m :: i <= m < |bs| ==> bs[m] !in t)
    && Bufs(t) == Bufs(t0) + Bufs(bs[..i])
    && (forall j :: n <= j < size ==> t[After(size, from, j)] == t0[After(size, from, j)])
    && var w0, w := Window(size, t0, from, n), Window(size, t, from, n);
       && (forall j :: 0 <= j < k ==> w[j] != null)
       && Fill(w0, bs) == w[..k] + Fill(w[k..], bs[i..])
       && Taken(w0, bs) == i + Taken(w[k..], bs[i..])
  }

  lemma PostingStart(size: nat, from: nat, n: nat, t: seq<Dma?>, bs: seq<Dma>)
    requires |t| == size && from < size && n < size && Distinct(t) && forall b :: b in bs ==> b !in t
    ensures Posting(size, from, n, t, t, bs, 0, 0)
  {
    var w := Window(size, t, from, n);
    assert w[0..] == w && bs[0..] == bs && bs[..0] == [];
  }

  /** The slot has a buffer already. */
  lemma PostingKeep(size: nat, from: nat, n: nat, t0: seq<Dma?>, t: seq<Dma?>, bs: seq<Dma>, i: nat, k: nat)
    requires Posting(size, from, n, t0, t, bs, i, k) && k < n
    ensures After(size, from, k) < size
    ensures t[After(size, from, k)] != null ==> Posting(size, from, n, t0, t, bs, i, k + 1)
  {
    hide Bufs, Fill, Taken, Distinct;
    var w := Window(size, t, from, n);
    if w[k] != null {
      PassUsed(w, bs[i..], k);
    }
  }

  /** The slot gets the next buffer of the caller. */
  lemma PostingGive(size: nat, from: nat, n: nat, t0: seq<Dma?>, t: seq<Dma?>, bs: seq<Dma>, i: nat, k: nat)
    requires Posting(size, from, n, t0, t, bs, i, k) && k < n && i < |bs| && t[After(size, from, k)] == null
    requires forall a, b :: 0 <= a < b < |bs| ==> bs[a] != bs[b]
    ensures Posting(size, from, n, t0, t[After(size, from, k) := bs[i]], bs, i + 1, k + 1)
  {
    hide Bufs, One, Fill, Taken;
    var p := After(size, from, k);
    WindowSet(size, t, from, n, k, bs[i]);
    PassGiven(Window(size, t, from, n), bs[i..], k);
    assert bs[i..][1..] == bs[i + 1..];
    BufsPut(t, p, bs[i]);
    assert bs[..i + 1] == bs[..i] + [bs[i]];
    BufsSnoc(bs[..i], bs[i]);
    assert bs[i] !in t;
  }

  lemma {:induction false} BufsSnoc(w: seq<Dma?>, x: Dma?)
    ensures Bufs(w + [x]) == Bufs(w) + One(x)
  {
    hide One;
    if w == [] {
      assert [x][1..] == [];
    } else {
      assert (w + [x])[1..] == w[1..] + [x];
      BufsSnoc(w[1..], x);
    }
  }

  lemma DistinctMove(t: seq<Dma?>, p: nat, q: nat)
    requires Distinct(t) && p < |t| && q < |t| && p != q && t[p] == null
    ensures Distinct(t[q := null][p := t[q]])
  {
  }

  /** Moving the next buffer down, seen in the window. */
  lemma PullWindow(size: nat, from: nat, n: nat, t: seq<Dma?>, k: nat, j: nat)
    requires |t| == size && from < size && k + j < n < size && 0 < j && t[After(size, from, k)] == null
    requires j == FirstUsed(Window(size, t, from, n)[k..])
    ensures After(size, from, k + j) < size && t[After(size, from, k + j)] != null
    ensures var p, q := After(size, from, k), After(size, from, k + j);
      var w, w' := Window(size, t, from, n), Window(size, t[q := null][p := t[q]], from, n);
      && w'[..k + 1] == w[..k] + [t[q]] && w'[k] == t[q] && (forall m :: 0 <= m < k ==> w'[m] == w[m])
      && w[..k] + Fill(w[k..], []) == w'[..k + 1] + Fill(w'[k + 1..], [])
      && Taken(w[k..], []) == 0 == Taken(w'[k + 1..], [])
  {
    hide Fill, Taken, FirstUsed;
    var p, q := After(size, from, k), After(size, from, k + j);
    WindowSet(size, t, from, n, k + j, null);
    WindowSet(size, t[q := null], from, n, k, t[q]);
    PassPulled(Window(size, t, from, n), k, j);
  }

  /** A buffer from a slot further along is moved to the first slot without one. */
  lemma PostingPull(size: nat, from: nat, n: nat, t0: seq<Dma?>, t: seq<Dma?>, bs: seq<Dma>, k: nat, j: nat)
    requires Posting(size, from, n, t0, t, bs, |bs|, k) && k < k + j < n && t[After(size, from, k)] == null
    requires j == FirstUsed(Window(size, t, from, n)[k..])
    ensures After(size, from, k + j) < size
    ensures var p, q := After(size, from, k), After(size, from, k + j);
      t[q] != null && Posting(size, from, n, t0, t[q := null][p := t[q]], bs, |bs|, k + 1)
  {
    hide Bufs, One, Fill, Taken, Window, Distinct, FirstUsed;
    var p, q := After(size, from, k), After(size, from, k + j);
    PullWindow(size, from, n, t, k, j);
    DistinctMove(t, p, q);
    assert bs[|bs|..] == [] && bs[..|bs|] == bs;
    BufsTake(t, q);
    BufsPut(t[q := null], p, t[q]);
  }

  /** The search is over: the free slots are as they should be. */
  lemma PostingDone(size: nat, from: nat, n: nat, t0: seq<Dma?>, t: seq<Dma?>, bs: seq<Dma>, i: nat, k: nat)
    requires Posting(size, from, n, t0, t, bs, i, k)
    requires k == n || (i == |bs| && FirstUsed(Window(size, t, from, n)[k..]) == n - k)
    ensures Window(size, t, from, n) == Fill(Window(size, t0, from, n), bs) && i == Taken(Window(size, t0, from, n), bs)
    ensures k == Min(n, Count(Window(size, t0, from, n)) + |bs|)
  {
    hide Bufs, Fill, Taken, Count, FirstUsed, Distinct;
    var w0, w := Window(size, t0, from, n), Window(size, t, from, n);
    assert w == w[..k] + w[k..];
    assert k == n ==> w[k..] == [];
    assert i == |bs| ==> bs[i..] == [];
    FillNothing(w[k..], bs[i..]);
    if k < n {
      assert w[k] == w[k..][0];
      FillExact(w0, bs, k);
    }
    if k > 0 {
      FillExact(w0, bs, k - 1);
    }
  }

  /** The first `k` free slots have their descriptors filled; the others are untouched. */
  ghost predicate Describing(size: nat, from: nat, d0: seq<Desc>, d: seq<Desc>, t: seq<Dma?>, k: nat)
  {
    && |d0| == |d| == |t| == size && from < size && k < size
    && (forall j :: 0 <= j < k ==>
          && t[After(size, from, j)] != null
          && d[After(size, from, j)] == Filling(d0[After(size, from, j)], t[After(size, from, j)]))
    && forall j :: k <= j < size ==> d[After(size, from, j)] == d0[After(size, from, j)]
  }

  lemma DescribingKeep(size: nat, from: nat, d0: seq<Desc>, d: seq<Desc>, t: seq<Dma?>, t': seq<Dma?>, k: nat, n: nat)
    requires Describing(size, from, d0, d, t, k) && k < n < size && |t'| == size
    requires Window(size, t', from, n)[..k] == Window(size, t, from, n)[..k]
    ensures Describing(size, from, d0, d, t', k)
  {
    forall j | 0 <= j < k
      ensures t'[After(size, from, j)] == t[After(size, from, j)]
    {
      assert Window(size, t', from, n)[..k][j] == Window(size, t, from, n)[..k][j];
    }
  }

  lemma DescribingStep(size: nat, from: nat, d0: seq<Desc>, d: seq<Desc>, t: seq<Dma?>, k: nat, e: Desc)
    requires Describing(size, from, d0, d, t, k) && k + 1 < size
    requires var i := After(size, from, k); t[i] != null && e == Filling(d[i], t[i])
    ensures Describing(size, from, d0, d[After(size, from, k) := e], t, k + 1)
  {
  }

  /** The slots from the driver's side, counted from the old tail. */
  lemma AroundTail(size: nat, ntc: nat, live: nat, m: nat)
    requires ntc < size && 0 < live < size && m < size
    ensures After(size, ntc, m) ==
            After(size, After(size, ntc, live), if m < live then size - live + m else m - live)
  {
  }

  /** The ring after a post that has filled at least one slot. */
  lemma PostedPost(size: nat, ntc: nat, ntp: nat, head: nat, d0: seq<Desc>, d: seq<Desc>, t0: seq<Dma?>, t: seq<Dma?>,
                   live: nat, done: nat, bs: seq<Dma>, i: nat, k: nat)
    requires Posted(size, ntc, ntp, head, d0, t0, live, done) && live > 0
    requires Posting(size, ntp, size - live, t0, t, bs, i, k) && Describing(size, ntp, d0, d, t, k) && k > 0
    ensures Posted(size, ntc, After(size, ntp, k - 1), head, d, t, live + k - 1, done)
  {
    hide Bufs, Fill, Taken;
    forall m | 0 <= m < size
      ensures After(size, ntc, m) == After(size, ntp, if m < live then size - live + m else m - live)
      ensures m < live ==>
        t[After(size, ntc, m)] == t0[After(size, ntc, m)] && d[After(size, ntc, m)] == d0[After(size, ntc, m)]
      ensures live <= m < live + k ==>
        t[After(size, ntc, m)] != null && Filled(d[After(size, ntc, m)], t[After(size, ntc, m)])
      ensures live + k <= m ==> d[After(size, ntc, m)] == d0[After(size, ntc, m)]
    {
      AroundTail(size, ntc, live, m);
    }
  }

  /** The same, said of the slots by their numbers. */
  ghost predicate Described(size: nat, from: nat, d0: seq<Desc>, d: seq<Desc>, t: seq<Dma?>, k: nat)
  {
    && |d0| == |d| == |t| == size > 0
    && (forall i :: 0 <= i < size && Ahead(size, from, i) < k ==>
          && t[i] != null && d[i].flags == Flags(false, false, 0, true, true, 0) && d[i].dataLen == t[i].size
          && d[i].params.word2 == t[i].high && d[i].params.word3 == t[i].low)
    && forall i :: 0 <= i < size ==>
         d[i] == if Ahead(size, from, i) < k
                 then d0[i].(flags := d[i].flags, dataLen := d[i].dataLen,
                             params := Params(d0[i].params.word0, d0[i].params.word1,
                                              d[i].params.word2, d[i].params.word3))
                 else d0[i]
  }

  lemma DescribingMeans(size: nat, from: nat, d0: seq<Desc>, d: seq<Desc>, t: seq<Dma?>, k: nat)
    requires Describing(size, from, d0, d, t, k)
    ensures Described(size, from, d0, d, t, k)
  {
    forall i | 0 <= i < size
      ensures After(size, from, Ahead(size, from, i)) == i
    {
    }
  }

  /** The slots past the `n` free ones are as they were, and the free ones past the first `k` are empty. */
  ghost predicate Supplied(size: nat, from: nat, t0: seq<Dma?>, t: seq<Dma?>, n: nat, k: nat)
  {
    && |t0| == |t| == size > 0
    && (forall i :: 0 <= i < size && Ahead(size, from, i) >= n ==> t[i] == t0[i])
    && (forall i :: 0 <= i < size && k <= Ahead(size, from, i) < n ==> t[i] == null)
  }

  lemma SuppliedBy(size: nat, from: nat, t0: seq<Dma?>, t: seq<Dma?>, n: nat, bs: seq<Dma>)
    requires |t0| == |t| == size && from < size && n < size
    requires Window(size, t, from, n) == Fill(Window(size, t0, from, n), bs)
    requires forall j :: n <= j < size ==> t[After(size, from, j)] == t0[After(size, from, j)]
    ensures Supplied(size, from, t0, t, n, Min(n, Count(Window(size, t0, from, n)) + |bs|))
  {
    hide Fill, Count, Window, Ahead, After;
    forall i | 0 <= i < size
      ensures Ahead(size, from, i) >= n ==> t[i] == t0[i]
      ensures Min(n, Count(Window(size, t0, from, n)) + |bs|) <= Ahead(size, from, i) < n ==> t[i] == null
    {
      AheadExact(size, from, i);
      if Ahead(size, from, i) < n {
        WindowAt(size, t, from, n, Ahead(size, from, i));
        FillExact(Window(size, t0, from, n), bs, Ahead(size, from, i));
      }
    }
  }

  lemma WindowAt(size: nat, t: seq<Dma?>, from: nat, n: nat, k: nat)
    requires |t| == size && from < size && k < n < size
    ensures After(size, from, k) < size && Window(size, t, from, n)[k] == t[After(size, from, k)]
  {
  }

  class RxQueue {
    const size: nat
    const desc: array<Desc>
    const rxBuff: array<Dma?>
    var ntc: nat
    var ntp: nat
    var tail: nat

    /** Where the device writes next. */
    var head: nat

    /** How many slots from `ntc` on hold posted buffers, and how many of those the device has used. */
    ghost var live: nat
    ghost var done: nat

    /** The buffers the driver has given to this queue so far, and those that have left it with a message. */
    ghost var given: multiset<Dma?>
    ghost var carried: multiset<Dma?>

    ghost predicate Valid()
      reads this, desc, rxBuff
    {
      && 0 < size == desc.Length == rxBuff.Length && tail == ntp
      && Posted(size, ntc, ntp, head, desc[..], rxBuff[..], live, done)
      && Distinct(rxBuff[..])
      && Bufs(rxBuff[..]) + carried == given
    }

    /** idpf_ctlq_add() for a receive queue: every slot but the last starts with a buffer. */
    constructor (buffs: seq<Dma>)
      requires forall i, j :: 0 <= i < j < |buffs| ==> buffs[i] != buffs[j]
      ensures Valid() && fresh(desc) && fresh(rxBuff) && size == |buffs| + 1
      ensures rxBuff[..] == buffs + [null] && live == |buffs| && done == 0
      ensures given == Bufs(buffs) && carried == multiset{}
      ensures ntc == head == 0 && ntp == tail == |buffs| && desc.Length == |buffs| + 1
      ensures forall k :: 0 <= k < |buffs| ==>
        desc[k] == Desc(Flags(false, false, 0, true, true, 0), 0, buffs[k].size, 0, 0, 0,
                        Params(0, 0, buffs[k].high, buffs[k].low))
    {
      size := |buffs| + 1;
      desc := new Desc[|buffs| + 1](i requires 0 <= i <= |buffs| =>
        if i < |buffs| then Filling(ZEROED, buffs[i]) else ZEROED);
      rxBuff := new Dma?[|buffs| + 1](i requires 0 <= i <= |buffs| => if i < |buffs| then buffs[i] else null);
      ntc, head, ntp, tail := 0, 0, |buffs|, |buffs|;
      live, done := |buffs|, 0;
      given, carried := Bufs(buffs), multiset{};
      new;
      hide Bufs, Filled, Posted, Distinct;
      assert rxBuff[..] == buffs + [null];
      PostedNew(buffs, desc[..]);
      BufsSnoc(buffs, null);
    }

    static lemma PostedNew(buffs: seq<Dma>, d: seq<Desc>)
      requires forall i, j :: 0 <= i < j < |buffs| ==> buffs[i] != buffs[j]
      requires |d| == |buffs| + 1
      requires forall k :: 0 <= k < |d| ==> d[k] == if k < |buffs| then Filling(ZEROED, buffs[k]) else ZEROED
      ensures Posted(|buffs| + 1, 0, |buffs|, 0, d, buffs + [null], |buffs|, 0) && Distinct(buffs + [null])
    {
    }

    /** The device writes a message into the buffer at its head and moves on; it never passes the tail. */
    method DeviceStep(d: Desc)
      requires Valid() && head != tail && d.flags.dd
      modifies this`head, this`done, desc
      ensures Valid() && head == After(size, old(head), 1) && done == old(done) + 1
      ensures desc[..] == old(desc[..])[old(head) := d]
    {
      hide Posted, Bufs, Distinct;
      PostedStep(size, ntc, ntp, head, desc[..], rxBuff[..], live, done, d);
      FillSlot(head, d);
      head := head + 1;
      if head == size {
        head := 0;
      }
      done := done + 1;
    }

    method FillSlot(i: nat, d: Desc)
      requires i < desc.Length
      modifies desc
      ensures desc[..] == old(desc[..])[i := d]
    {
      desc[i] := d;
    }

    method KeepBuffer(i: nat, b: Dma?)
      requires i < rxBuff.Length
      modifies rxBuff
      ensures rxBuff[..] == old(rxBuff[..])[i := b]
    {
      rxBuff[i] := b;
    }
  
    lemma Sizes()
      requires Valid()
      ensures size == desc.Length == rxBuff.Length && ntc < size && ntp < size && live < size && done <= live
      ensures (desc[ntc].flags.dd <==> done > 0) && tail == ntp
    {
      assert After(size, ntc, 0) == ntc;
    }

    /** Take the message out of the slot and clear it. */
    method Extract() returns (m: RxMsg)
      requires ntc < desc.Length == rxBuff.Length
      modifies desc, rxBuff
      ensures m == old(Decoded(desc[ntc], rxBuff[ntc])) && desc[..] == old(desc[..])[ntc := ZEROED]
      ensures rxBuff[..] == old(rxBuff[..])[ntc := if old(desc[ntc].dataLen) != 0 then null else old(rxBuff[ntc])]
    {
      var d := desc[ntc];
      var params, payload: Dma? := d.params, null;
      if d.dataLen != 0 {
        params := Params(d.params.word0, d.params.word1, 0, 0);
        payload := rxBuff[ntc];
        rxBuff[ntc] := null;
      }
      m := RxMsg(d.flags.source, d.opcode, d.dataLen, d.ret, d.cookieHigh, d.cookieLow, params, payload);
      desc[ntc] := ZEROED;
    }

    /** Buffers that have left the ring with a message. */
    ghost method Leave(gone: multiset<Dma?>)
      requires desc.Length == rxBuff.Length == size > 0 && tail == ntp
      requires Posted(size, ntc, ntp, head, desc[..], rxBuff[..], live, done) && Distinct(rxBuff[..])
      requires Bufs(rxBuff[..]) + gone + carried == given
      modifies this`carried
      ensures Valid() && carried == old(carried) + gone
    {
      hide Posted, Distinct, Bufs;
      assert Bufs(rxBuff[..]) + (carried + gone) == Bufs(rxBuff[..]) + gone + carried;
      carried := carried + gone;
    }

    /** One round of the loop in idpf_ctlq_recv(). */
    method TakeOne() returns (m: RxMsg)
      requires Valid() && ntc < size && desc[ntc].flags.dd
      modifies this`ntc, this`live, this`done, this`carried, desc, rxBuff
      ensures carried == old(carried) + One(m.payload)
      ensures Valid() && m == old(Decoded(desc[ntc], rxBuff[ntc])) && (m.payload == null <==> m.dataLen == 0)
      ensures old(done) > 0 && done == old(done) - 1 && live == old(live) - 1 && ntc == After(size, old(ntc), 1)
      ensures desc[..] == old(desc[..])[old(ntc) := ZEROED]
      ensures rxBuff[..] == old(rxBuff[..])[old(ntc) := rxBuff[old(ntc)]]
      ensures rxBuff[old(ntc)] == if m.dataLen != 0 then null else old(rxBuff[ntc])
      ensures Bufs(old(rxBuff[..])) == Bufs(rxBuff[..]) + One(m.payload)
    {
      hide Posted, Distinct, Bufs, One, Decoded;
      Sizes();
      NoBuffer();
      DecodedData(desc[ntc], rxBuff[ntc]);
      ghost var t, i := rxBuff[..], ntc;
      ghost var x := if desc[ntc].dataLen != 0 then null else rxBuff[ntc];
      PostedTake(size, ntc, ntp, head, desc[..], t, live, done, x);
      DistinctDrop(t, ntc, x);
      BufsTake(t, i);
      assert t[i := t[i]] == t;
      m := Extract();
      Advance();
      Leave(One(m.payload));
    }

    method Advance()
      requires ntc < size && live > 0 && done > 0
      modifies this`ntc, this`live, this`done
      ensures ntc == After(size, old(ntc), 1) && live == old(live) - 1 && done == old(done) - 1
    {
      ntc := ntc + 1;
      if ntc == size {
        ntc := 0;
      }
      live, done := live - 1, done - 1;
    }

    /** The same, with the messages taken before it. */
    method RecvRound(ghost d0: seq<Desc>, ghost t0: seq<Dma?>, ghost from: nat, ghost msgs: seq<RxMsg>)
        returns (m: RxMsg)
      requires Valid() && ntc < size && desc[ntc].flags.dd && |msgs| < size
      requires ntc == After(size, from, |msgs|) && Received(size, d0, t0, from, desc[..], rxBuff[..], msgs)
      modifies this`ntc, this`live, this`done, this`carried, desc, rxBuff
      ensures carried == old(carried) + One(m.payload)
      ensures Valid() && old(done) > 0 && done == old(done) - 1
      ensures live == old(live) - 1 && ntc == After(size, old(ntc), 1)
      ensures Received(size, d0, t0, from, desc[..], rxBuff[..], msgs + [m])
    {
      hide Valid, Received, Bufs, One;
      Sizes();
      ghost var d, t, i := desc[..], rxBuff[..], ntc;
      m := TakeOne();
      ReceivedStep(size, d0, t0, from, d, t, msgs, m, rxBuff[i]);
    }

    /** The part of idpf_ctlq_recv() that runs under the lock. */
    method RecvLoop(count: nat) returns (msgs: seq<RxMsg>, bad: bool)
      requires Valid() && count <= size
      modifies this`ntc, this`live, this`done, this`carried, desc, rxBuff
      ensures carried == old(carried) + Carried(msgs)
      ensures Valid() && |msgs| == Min(count, old(done)) < size && old(ntc) < size == old(|desc[..]|)
      ensures Received(size, old(desc[..]), old(rxBuff[..]), old(ntc), desc[..], rxBuff[..], msgs)
      ensures done == old(done) - |msgs| && live == old(live) - |msgs| && ntc == After(size, old(ntc), |msgs|)
      ensures bad <==> exists k :: 0 <= k < |msgs| && old(desc[..])[After(size, old(ntc), k)].flags.err
    {
      hide Valid, Received, Carried, One;
      Sizes();
      CarriedNone();
      ghost var d0, t0, from := desc[..], rxBuff[..], ntc;
      ReceivedNone(size, d0, t0, from);
      assert |d0| == size;
      msgs, bad := [], false;
      var i := 0;
      while i < count
        invariant Valid() && i == |msgs| && i <= count && ntc < size == desc.Length == rxBuff.Length
        invariant i <= old(done) < size && done == old(done) - i && live == old(live) - i
        invariant ntc == After(size, from, i) && Received(size, d0, t0, from, desc[..], rxBuff[..], msgs)
        invariant carried == old(carried) + Carried(msgs)
        invariant bad <==> exists k :: 0 <= k < i && d0[After(size, from, k)].flags.err
      {
        Sizes();
        if !desc[ntc].flags.dd {
          break;
        }
        ReceivedErrors(size, d0, t0, from, desc[..], rxBuff[..], msgs);
        if desc[ntc].flags.err {
          bad := true;
        }
        var m := RecvRound(d0, t0, from, msgs);
        CarriedStep(msgs, m);
        msgs := msgs + [m];
        i := i + 1;
        Sizes();
      }
    }

    /** idpf_ctlq_recv(): each message is what its descriptor says, with the buffer of the slot if there is data in it;
        the descriptors are zeroed, and the buffers without data stay in their slots. */
    method Recv(count: nat) returns (r: Status, msgs: seq<RxMsg>)
      requires Valid()
      modifies this`ntc, this`live, this`done, this`carried, desc, rxBuff
      ensures carried == old(carried) + Carried(msgs)
      ensures Valid() && |msgs| == (if count > size then 0 else Min(count, old(done))) < size
      ensures old(ntc) < size == old(|desc[..]|) == old(|rxBuff[..]|) == desc.Length == rxBuff.Length
      ensures forall k :: 0 <= k < |msgs| ==>
        var e, b, m := old(desc[..])[(old(ntc) + k) % size], old(rxBuff[..])[(old(ntc) + k) % size], msgs[k];
        && m.source == e.flags.source && m.opcode == e.opcode && m.dataLen == e.dataLen && m.status == e.ret
        && m.cookieHigh == e.cookieHigh && m.cookieLow == e.cookieLow
        && m.params.word0 == e.params.word0 && m.params.word1 == e.params.word1
        && (m.dataLen == 0 ==> m.params == e.params) && m.payload == if m.dataLen != 0 then b else null
      ensures forall i :: 0 <= i < size ==>
        && desc[i] == (if Ahead(size, old(ntc), i) < |msgs|
                       then Desc(Flags(false, false, 0, false, false, 0), 0, 0, 0, 0, 0, Params(0, 0, 0, 0))
                       else old(desc[..])[i])
        && rxBuff[i] == (if Ahead(size, old(ntc), i) < |msgs| && old(desc[..])[i].dataLen != 0 then null
                         else old(rxBuff[..])[i])
      ensures forall k :: 0 <= k < |msgs| ==> old(desc[..])[After(size, old(ntc), k)].flags.dd
      ensures |msgs| < count <= size ==> !old(desc[..])[After(size, old(ntc), |msgs|)].flags.dd
      ensures done == old(done) - |msgs| && live == old(live) - |msgs| && ntc == (old(ntc) + |msgs|) % size
      ensures r == if count == 0 then Success else if count > size then BadRequest else if msgs == [] then NoMessage
                   else if exists i :: 0 <= i < size && Ahead(size, old(ntc), i) < |msgs| && old(desc[..])[i].flags.err
                    then BadMessage
                   else Success
    {
      hide Valid, Received, Carried;
      DoneMeans();
      r, msgs := RecvChecked(count);
      Sizes();
      ReceivedMeans(size, old(desc[..]), old(rxBuff[..]), old(ntc), desc[..], rxBuff[..], msgs);
    }

    /** The device is done with just the first `done` slots from the driver on. */
    lemma DoneMeans()
      requires Valid()
      ensures |desc[..]| == size && ntc < size
      ensures forall k :: 0 <= k < size ==>
        After(size, ntc, k) < size && (desc[..][After(size, ntc, k)].flags.dd <==> k < done)
    {
    }

    /** The checks of idpf_ctlq_recv() and what follows them. */
    method RecvChecked(count: nat) returns (r: Status, msgs: seq<RxMsg>)
      requires Valid()
      modifies this`ntc, this`live, this`done, this`carried, desc, rxBuff
      ensures carried == old(carried) + Carried(msgs)
      ensures Valid() && |msgs| == (if count > size then 0 else Min(count, old(done))) < size
      ensures old(ntc) < size == old(|desc[..]|)
      ensures Received(size, old(desc[..]), old(rxBuff[..]), old(ntc), desc[..], rxBuff[..], msgs)
      ensures done == old(done) - |msgs| && live == old(live) - |msgs| && ntc == After(size, old(ntc), |msgs|)
      ensures r == if count == 0 then Success else if count > size then BadRequest else if msgs == [] then NoMessage
                   else if exists k :: 0 <= k < |msgs| && old(desc[..])[After(size, old(ntc), k)].flags.err
                    then BadMessage
                   else Success
    {
      hide Valid, Received, Carried;
      Sizes();
      CarriedNone();
      ReceivedNone(size, desc[..], rxBuff[..], ntc);
      if count == 0 {
        return Success, [];
      } else if count > size {
        return BadRequest, [];
      }
      var bad: bool;
      msgs, bad := RecvLoop(count);
      r := if bad then BadMessage else Success;
      if |msgs| == 0 {
        r := NoMessage;
      }
    }

    /** The free slots between the tail and the driver, as the post counts them. */
    ghost function Free(): nat
      requires Valid()
      reads this, desc, rxBuff
    {
      if live == 0 then 0 else size - live
    }

    /** Look further along the ring for a buffer to move into slot `p`. */
    method PullDown(p: nat, ghost from: nat, ghost n: nat, ghost k: nat) returns (found: bool)
      requires rxBuff.Length == size && from < size && k < n < size && ntc == After(size, from, n)
      requires p == After(size, from, k) && rxBuff[p] == null
      modifies rxBuff
      ensures var j := FirstUsed(Window(size, old(rxBuff[..]), from, n)[k..]);
        && found == (k + j < n) && (!found ==> rxBuff[..] == old(rxBuff[..]))
        && (found ==>
              && j > 0 && After(size, from, k + j) < size
              && rxBuff[..] == old(rxBuff[..])[After(size, from, k + j) := null]
                                [p := old(rxBuff[..])[After(size, from, k + j)]])
    {
      hide FirstUsed;
      ghost var t := rxBuff[..];
      ghost var w := Window(size, t, from, n);
      var q := p + 1;
      if q >= size {
        q := 0;
      }
      ghost var j := 1;
      while q != ntc
        invariant 1 <= j <= n - k && q == After(size, from, k + j) && rxBuff[..] == t
        invariant forall m :: 0 <= m < j ==> w[k..][m] == null
        decreases n - k - j
      {
        assert w[k..][j] == t[q];
        if rxBuff[q] != null {
          FirstIs(w[k..], j);
          var b := rxBuff[q];
          KeepBuffer(q, null);
          KeepBuffer(p, b);
          return true;
        }
        q := q + 1;
        if q >= size {
          q := 0;
        }
        j := j + 1;
      }
      FirstIs(w[k..], j);
      return false;
    }

    lemma FirstIs(w: seq<Dma?>, j: nat)
      requires j <= |w| && (j < |w| ==> w[j] != null) && forall m :: 0 <= m < j ==> w[m] == null
      ensures FirstUsed(w) == j
    {
    }

    /** A buffer for one slot, from wherever there is one. */
    method Supply(p: nat, bs: seq<Dma>, i: nat, ghost from: nat, ghost n: nat, ghost t0: seq<Dma?>, ghost k: nat)
        returns (ok: bool, i': nat)
      requires rxBuff.Length == size && k < n < size && Posting(size, from, n, t0, rxBuff[..], bs, i, k)
      requires ntc == After(size, from, n) && p == After(size, from, k)
      requires forall a, b :: 0 <= a < b < |bs| ==> bs[a] != bs[b]
      modifies rxBuff
      ensures from < size && Window(size, rxBuff[..], from, n)[..k] == Window(size, old(rxBuff[..]), from, n)[..k]
      ensures ok ==>
        p < size && i' <= i + 1 && rxBuff[p] != null && Posting(size, from, n, t0, rxBuff[..], bs, i', k + 1)
      ensures !ok ==>
        && Posting(size, from, n, t0, rxBuff[..], bs, i', k) && i' == |bs| == i && rxBuff[..] == old(rxBuff[..])
        && FirstUsed(Window(size, rxBuff[..], from, n)[k..]) == n - k
    {
      hide Posting, FirstUsed, Window;
      i' := i;
      PostingSizes(from, n, t0, bs, i, k);
      PostingKeep(size, from, n, t0, rxBuff[..], bs, i, k);
      ghost var t := rxBuff[..];
      if rxBuff[p] != null {
        return true, i;
      }
      if i == |bs| {
        ok := PullDown(p, from, n, k);
        ghost var j := FirstUsed(Window(size, t, from, n)[k..]);
        if ok {
          PostingPull(size, from, n, t0, t, bs, k, j);
          PrefixPull(t, from, n, k, j);
        }
      } else {
        PostingGive(size, from, n, t0, t, bs, i, k);
        PrefixSet(t, from, n, k, bs[i]);
        KeepBuffer(p, bs[i]);
        return true, i + 1;
      }
    }

    lemma PostingSizes(from: nat, n: nat, t0: seq<Dma?>, bs: seq<Dma>, i: nat, k: nat)
      requires Posting(size, from, n, t0, rxBuff[..], bs, i, k)
      ensures from < size == rxBuff.Length && k <= n < size && i <= |bs|
    {
    }

    lemma PrefixSet(t: seq<Dma?>, from: nat, n: nat, k: nat, x: Dma?)
      requires |t| == size && from < size && k < n < size
      ensures Window(size, t[After(size, from, k) := x], from, n)[..k] == Window(size, t, from, n)[..k]
    {
      WindowSet(size, t, from, n, k, x);
    }

    lemma PrefixPull(t: seq<Dma?>, from: nat, n: nat, k: nat, j: nat)
      requires |t| == size && from < size && k + j < n < size && After(size, from, k + j) < size
      ensures var p, q := After(size, from, k), After(size, from, k + j);
        Window(size, t[q := null][p := t[q]], from, n)[..k] == Window(size, t, from, n)[..k]
    {
      WindowSet(size, t, from, n, k + j, null);
      WindowSet(size, t[After(size, from, k + j) := null], from, n, k, t[After(size, from, k + j)]);
    }

    /** The loop of idpf_ctlq_post_rx_buffs(), up to where it stops. */
    method PostLoop(bs: seq<Dma>, ghost n: nat) returns (p: nat, i: nat, ghost k: nat)
      requires Valid() && n == Free() != 1 && forall b :: b in bs ==> b !in rxBuff[..]
      requires forall a, b :: 0 <= a < b < |bs| ==> bs[a] != bs[b]
      modifies desc, rxBuff
      ensures old(|rxBuff[..]|) == old(|desc[..]|) == size == rxBuff.Length
      ensures ntp < size && p == After(size, ntp, k) && k <= n < size
      ensures Posting(size, ntp, n, old(rxBuff[..]), rxBuff[..], bs, i, k)
      ensures Describing(size, ntp, old(desc[..]), desc[..], rxBuff[..], k)
      ensures k == n || (i == |bs| && FirstUsed(Window(size, rxBuff[..], ntp, n)[k..]) == n - k)
      ensures i <= k && (k == 0 ==> rxBuff[..] == old(rxBuff[..]))
    {
      hide Posting, Describing, FirstUsed, Window;
      Around(n);
      ghost var t0, d0 := rxBuff[..], desc[..];
      p, i, k := ntp, 0, 0;
      PostingStart(size, ntp, n, t0, bs);
      DescribingNone(d0, t0);
      while p != ntc
        invariant i <= k <= n && i <= |bs| && (k == 0 ==> rxBuff[..] == t0)
        invariant p == After(size, ntp, k) && rxBuff.Length == desc.Length == size
        invariant Posting(size, ntp, n, t0, rxBuff[..], bs, i, k) && Describing(size, ntp, d0, desc[..], rxBuff[..], k)
        decreases n - k
      {
        ghost var t := rxBuff[..];
        var ok: bool;
        ok, i := Supply(p, bs, i, ntp, n, t0, k);
        DescribingKeep(size, ntp, d0, desc[..], t, rxBuff[..], k, n);
        if !ok {
          break;
        }
        var e := Filling(desc[p], rxBuff[p]);
        DescribingStep(size, ntp, d0, desc[..], rxBuff[..], k, e);
        FillSlot(p, e);
        p := p + 1;
        if p == size {
          p := 0;
        }
        k := k + 1;
        PostingSizes(ntp, n, t0, bs, i, k);
      }
    }

    lemma Around(n: nat)
      requires Valid() && n == Free()
      ensures n < size && ntp < size && ntc == After(size, ntp, n)
      ensures rxBuff.Length == desc.Length == size && Distinct(rxBuff[..])
    {
    }

    lemma DescribingNone(d: seq<Desc>, t: seq<Dma?>)
      requires |d| == |t| == size && ntp < size
      ensures Describing(size, ntp, d, d, t, 0)
    {
    }

    lemma FreeFacts(next: nat)
      requires Valid() && next == (if ntp + 1 >= size then 0 else ntp + 1)
      ensures Free() < size && (next == ntc <==> Free() == 1 || size == 1)
      ensures Free() > 1 <==> ntc != ntp && ntc != After(size, ntp, 1)
    {
    }

    lemma NothingTaken(bs: seq<Dma>)
      ensures Bufs(rxBuff[..]) == Bufs(rxBuff[..]) + Bufs(bs[..0]) && given == given + Bufs(bs[..0])
    {
    }

    /** The buffers the caller has given away. */
    ghost method Give(taken: multiset<Dma?>)
      requires desc.Length == rxBuff.Length == size > 0 && tail == ntp
      requires Posted(size, ntc, ntp, head, desc[..], rxBuff[..], live, done) && Distinct(rxBuff[..])
      requires Bufs(rxBuff[..]) + carried == given + taken
      modifies this`given
      ensures Valid() && given == old(given) + taken
    {
      hide Posted, Distinct, Bufs;
      given := given + taken;
    }

    method MoveTail(to: nat, ghost live': nat)
      modifies this`ntp, this`tail, this`live
      ensures ntp == tail == to && live == live'
    {
      ntp := to;
      live := live';
      tail := ntp;
    }

    /** The last part of the post: the tail moves to the last slot filled, if any has been. */
    method Settle(p: nat, ghost n: nat, ghost t0: seq<Dma?>, ghost d0: seq<Desc>, ghost bs: seq<Dma>, ghost i: nat,
                  ghost k: nat)
      requires 0 < size == desc.Length == rxBuff.Length && ntp < size && tail == ntp && k <= n < size
      requires Posted(size, ntc, ntp, head, d0, t0, live, done) && n == (if live == 0 then 0 else size - live)
      requires Posting(size, ntp, n, t0, rxBuff[..], bs, i, k) && Describing(size, ntp, d0, desc[..], rxBuff[..], k)
      requires p == After(size, ntp, k) && (k == 0 ==> t0 == rxBuff[..])
      requires Bufs(t0) + carried == given
      modifies this`ntp, this`tail, this`live, this`given
      ensures given == old(given) + Bufs(bs[..i])
      ensures Valid() && ntp == (if k == 0 then old(ntp) else After(size, old(ntp), k - 1))
      ensures live == old(live) + if k == 0 then 0 else k - 1
    {
      hide Posted, Posting, Describing, Distinct, Bufs;
      PostingDistinct(n, t0, bs, i, k);
      if k == 0 {
        SameDescs(d0);
      } else {
        PostedPost(size, ntc, ntp, head, d0, desc[..], t0, rxBuff[..], live, done, bs, i, k);
      }
      if ntp != p {
        MoveTail(if p > 0 then p - 1 else size - 1, live + k - 1);
      }
      Give(Bufs(bs[..i]));
    }

    lemma PostingDistinct(n: nat, t0: seq<Dma?>, bs: seq<Dma>, i: nat, k: nat)
      requires Posting(size, ntp, n, t0, rxBuff[..], bs, i, k)
      ensures Distinct(rxBuff[..]) && i <= |bs| && Bufs(rxBuff[..]) == Bufs(t0) + Bufs(bs[..i])
    {
    }

    lemma SameDescs(d0: seq<Desc>)
      requires Describing(size, ntp, d0, desc[..], rxBuff[..], 0)
      ensures desc[..] == d0
    {
      forall m | 0 <= m < size
        ensures desc[m] == d0[m]
      {
        var j := Places(size, ntp, m);
      }
    }

    /** What a post does to the `n` free slots. */
    ghost predicate Refilled(n: nat, from: nat, t0: seq<Dma?>, d0: seq<Desc>, live0: nat, bs: seq<Dma>, unposted: nat)
      reads this, desc, rxBuff
    {
      && |t0| == |d0| == |rxBuff[..]| == size && from < size && n < size && unposted <= |bs|
      && var w0 := Window(size, t0, from, n);
         var filled := Min(n, Count(w0) + |bs|);
         && Window(size, rxBuff[..], from, n) == Fill(w0, bs)
         && (forall j :: n <= j < size ==> rxBuff[..][After(size, from, j)] == t0[After(size, from, j)])
         && unposted == |bs| - Taken(w0, bs)
         && ntp == (if filled == 0 then from else After(size, from, filled - 1))
         && live == live0 + (if filled == 0 then 0 else filled - 1)
         && Describing(size, from, d0, desc[..], rxBuff[..], filled)
    }

    /** What the loop has left is what a post does. */
    lemma RefilledBy(n: nat, from: nat, t0: seq<Dma?>, d0: seq<Desc>, live0: nat, bs: seq<Dma>, i: nat, k: nat)
      requires Posting(size, from, n, t0, rxBuff[..], bs, i, k) && Describing(size, from, d0, desc[..], rxBuff[..], k)
      requires k == n || (i == |bs| && FirstUsed(Window(size, rxBuff[..], from, n)[k..]) == n - k)
      requires ntp == (if k == 0 then from else After(size, from, k - 1))
      requires live == live0 + if k == 0 then 0 else k - 1
      ensures i <= |bs| && Refilled(n, from, t0, d0, live0, bs, |bs| - i)
    {
      hide Fill, Taken, Count, Bufs, FirstUsed, Distinct, Describing;
      PostingDone(size, from, n, t0, rxBuff[..], bs, i, k);
      DescribingSize(size, from, d0, desc[..], rxBuff[..], k);
    }

    /** With no free slot nothing is taken. */
    lemma NoneTaken(from: nat, t0: seq<Dma?>, bs: seq<Dma>, i: nat, k: nat)
      requires Posting(size, from, 0, t0, rxBuff[..], bs, i, k)
      ensures i == 0
    {
      hide Bufs, Distinct;
    }

    static lemma DescribingSize(size: nat, from: nat, d0: seq<Desc>, d: seq<Desc>, t: seq<Dma?>, k: nat)
      requires Describing(size, from, d0, d, t, k)
      ensures |d0| == |d| == |t| == size
    {
    }

    /** The part of the post that changes the ring. */
    method PostFree(bs: seq<Dma>, ghost n: nat) returns (unposted: nat)
      requires Valid() && n == Free() != 1 && forall b :: b in bs ==> b !in rxBuff[..]
      requires forall a, b :: 0 <= a < b < |bs| ==> bs[a] != bs[b]
      modifies this`ntp, this`tail, this`live, this`given, desc, rxBuff
      ensures Valid() && unposted <= |bs| && given == old(given) + Bufs(bs[..|bs| - unposted])
      ensures n == 0 ==>
        && unposted == |bs| && ntp == old(ntp) && live == old(live)
        && rxBuff[..] == old(rxBuff[..]) && desc[..] == old(desc[..])
      ensures n > 1 ==> Refilled(n, old(ntp), old(rxBuff[..]), old(desc[..]), old(live), bs, unposted)
      ensures Bufs(rxBuff[..]) == Bufs(old(rxBuff[..])) + Bufs(bs[..|bs| - unposted])
    {
      hide Posted, Posting, Describing, Fill, Taken, Count, Bufs, FirstUsed, Distinct, Refilled;
      Around(n);
      ghost var t0, d0, from := rxBuff[..], desc[..], ntp;
      var p, i;
      ghost var k;
      p, i, k := PostLoop(bs, n);
      PostingDistinct(n, t0, bs, i, k);
      if k == 0 {
        SameDescs(d0);
      }
      Settle(p, n, t0, d0, bs, i, k);
      RefilledBy(n, from, t0, d0, old(live), bs, i, k);
      if n == 0 {
        NoneTaken(from, t0, bs, i, k);
      }
      assert bs[..|bs| - (|bs| - i)] == bs[..i];
      return |bs| - i;
    }

    /** idpf_ctlq_post_rx_buffs(): `unposted` is how many of the caller's buffers have not been taken.  Of the free
        slots, those from the old tail up to the driver, the first `filled` hold a buffer and a descriptor of it
        afterwards, and the others nothing; no other slot changes, and no buffer is left over while there is room. */
    method Post(bs: seq<Dma>) returns (r: Status, unposted: nat, ghost filled: nat)
      requires Valid() && forall b :: b in bs ==> b !in rxBuff[..]
      requires forall a, b :: 0 <= a < b < |bs| ==> bs[a] != bs[b]
      modifies this`ntp, this`tail, this`live, this`given, desc, rxBuff
      ensures Valid() && done == old(done) && unposted <= |bs| && r == if |bs| > size then BadRequest else Success
      ensures 0 < size == desc.Length == rxBuff.Length == old(|desc[..]|) == old(|rxBuff[..]|)
      ensures old(ntp) < size && old(ntc) < size && tail == ntp
      ensures var n := Ahead(size, old(ntp), old(ntc));
        && filled <= n && (r == BadRequest || n <= 1 ==> filled == 0 && unposted == |bs|)
        && (r == Success && n > 1 && unposted > 0 ==> filled == n)
        && ntp == (if filled == 0 then old(ntp) else (old(ntp) + filled - 1) % size)
        && (forall i :: 0 <= i < size && Ahead(size, old(ntp), i) < filled ==>
              && rxBuff[i] != null
              && desc[i].flags == Flags(false, false, 0, true, true, 0) && desc[i].dataLen == rxBuff[i].size
              && desc[i].params.word2 == rxBuff[i].high && desc[i].params.word3 == rxBuff[i].low)
        && (forall i :: 0 <= i < size ==>
              desc[i] == if Ahead(size, old(ntp), i) < filled
                         then old(desc[..])[i].(flags := desc[i].flags, dataLen := desc[i].dataLen,
                              params := Params(old(desc[..])[i].params.word0, old(desc[..])[i].params.word1,
                                               desc[i].params.word2, desc[i].params.word3))
                         else old(desc[..])[i])
        && (forall i :: 0 <= i < size && Ahead(size, old(ntp), i) >= n ==> rxBuff[i] == old(rxBuff[..])[i])
        && (r == Success && n > 1 ==>
              && (forall i :: 0 <= i < size && filled <= Ahead(size, old(ntp), i) < n ==> rxBuff[i] == null)
              && Window(size, rxBuff[..], old(ntp), n) == Fill(Window(size, old(rxBuff[..]), old(ntp), n), bs))
        && (r == BadRequest || n <= 1 ==> rxBuff[..] == old(rxBuff[..]) && live == old(live))
      ensures Bufs(rxBuff[..]) == Bufs(old(rxBuff[..])) + Bufs(bs[..|bs| - unposted])
      ensures given == old(given) + Bufs(bs[..|bs| - unposted])
      ensures r == Success ==>
        (ntp != old(ntp) <==>
          old(ntc != ntp && ntc != (ntp + 1) % size) && AtHand(old(Free()), old(ntp), old(rxBuff[..])) + |bs| > 1)
    {
      hide Valid, Bufs, AtHand, Fill, Window, Ahead, After;
      AfterNext();
      r, unposted, filled := PostSettled(bs);
    }

    lemma AfterNext()
      requires Valid()
      ensures 0 < size && ntp < size && After(size, ntp, 1) == (ntp + 1) % size
    {
      AfterExact(size, ntp, 1);
    }

    /** A post, with what it does to the free slots. */
    method PostSettled(bs: seq<Dma>) returns (r: Status, unposted: nat, ghost filled: nat)
      requires Valid() && forall b :: b in bs ==> b !in rxBuff[..]
      requires forall a, b :: 0 <= a < b < |bs| ==> bs[a] != bs[b]
      modifies this`ntp, this`tail, this`live, this`given, desc, rxBuff
      ensures Valid() && done == old(done) && unposted <= |bs| && r == if |bs| > size then BadRequest else Success
      ensures 0 < size == desc.Length == rxBuff.Length == old(|desc[..]|) == old(|rxBuff[..]|)
      ensures old(ntp) < size && old(ntc) < size && tail == ntp
      ensures var n := Ahead(size, old(ntp), old(ntc));
        && n == old(Free()) && filled <= n
        && (r == BadRequest || n <= 1 ==> filled == 0 && unposted == |bs|)
        && (r == Success && n > 1 && unposted > 0 ==> filled == n)
        && (r == Success && n > 1 ==>
              && Supplied(size, old(ntp), old(rxBuff[..]), rxBuff[..], n, filled)
              && Window(size, rxBuff[..], old(ntp), n) == Fill(Window(size, old(rxBuff[..]), old(ntp), n), bs))
        && (r == BadRequest || n <= 1 ==> rxBuff[..] == old(rxBuff[..]) && live == old(live))
      ensures ntp == (if filled == 0 then old(ntp) else (old(ntp) + filled - 1) % size)
      ensures Described(size, old(ntp), old(desc[..]), desc[..], rxBuff[..], filled)
      ensures Bufs(rxBuff[..]) == Bufs(old(rxBuff[..])) + Bufs(bs[..|bs| - unposted])
      ensures given == old(given) + Bufs(bs[..|bs| - unposted])
      ensures r == Success ==>
        (ntp != old(ntp) <==>
          old(ntc != ntp && ntc != After(size, ntp, 1)) && AtHand(old(Free()), old(ntp), old(rxBuff[..])) + |bs| > 1)
    {
      hide Valid, Refilled, Bufs, AtHand, Fill, Window, Described, Supplied, Ahead, After;
      Sizes();
      FreeExact();
      ghost var n, from, t0, d0, live0 := Free(), ntp, rxBuff[..], desc[..], live;
      r, unposted := PostChecked(bs);
      Sizes();
      filled := 0;
      if r == Success && n > 1 {
        filled := RefilledMeans(n, from, t0, d0, live0, bs, unposted);
      } else {
        DescribedNone(from, d0, rxBuff[..]);
      }
    }

    lemma DescribedNone(from: nat, d: seq<Desc>, t: seq<Dma?>)
      requires |d| == |t| == size > 0 && from < size
      ensures Described(size, from, d, d, t, 0)
    {
    }

    /** The free slots are those from the tail up to the driver. */
    lemma FreeExact()
      requires Valid()
      ensures 0 < size && Free() == Ahead(size, ntp, ntc) < size
    {
    }

    /** A post, said of the slots by their numbers. */
    lemma RefilledMeans(n: nat, from: nat, t0: seq<Dma?>, d0: seq<Desc>, live0: nat, bs: seq<Dma>, unposted: nat)
        returns (filled: nat)
      requires Refilled(n, from, t0, d0, live0, bs, unposted) && n > 0 && desc.Length == rxBuff.Length == size
      ensures |t0| == |d0| == size && from < size
      ensures filled <= n < size && (unposted > 0 ==> filled == n)
      ensures ntp == (if filled == 0 then from else (from + filled - 1) % size)
      ensures Described(size, from, d0, desc[..], rxBuff[..], filled)
      ensures Supplied(size, from, t0, rxBuff[..], n, filled)
      ensures Window(size, rxBuff[..], from, n) == Fill(Window(size, t0, from, n), bs)
    {
      hide Fill, Taken, Count;
      var w0 := Window(size, t0, from, n);
      filled := Min(n, Count(w0) + |bs|);
      LeftOver(w0, bs);
      if filled > 0 {
        AfterExact(size, from, filled - 1);
      }
      DescribingMeans(size, from, d0, desc[..], rxBuff[..], filled);
      SuppliedBy(size, from, t0, rxBuff[..], n, bs);
    }

    /** The checks of idpf_ctlq_post_rx_buffs() and what follows them. */
    method PostChecked(bs: seq<Dma>) returns (r: Status, unposted: nat)
      requires Valid() && forall b :: b in bs ==> b !in rxBuff[..]
      requires forall a, b :: 0 <= a < b < |bs| ==> bs[a] != bs[b]
      modifies this`ntp, this`tail, this`live, this`given, desc, rxBuff
      ensures Valid() && done == old(done) && unposted <= |bs| && r == if |bs| > size then BadRequest else Success
      ensures r == BadRequest || old(Free()) <= 1 ==>
        && unposted == |bs| && ntp == old(ntp) && live == old(live)
        && rxBuff[..] == old(rxBuff[..]) && desc[..] == old(desc[..])
      ensures r == Success && old(Free()) > 1 ==>
        Refilled(old(Free()), old(ntp), old(rxBuff[..]), old(desc[..]), old(live), bs, unposted)
      ensures Bufs(rxBuff[..]) == Bufs(old(rxBuff[..])) + Bufs(bs[..|bs| - unposted])
      ensures given == old(given) + Bufs(bs[..|bs| - unposted])
      ensures r == Success ==>
        (ntp != old(ntp) <==>
          old(ntc != ntp && ntc != After(size, ntp, 1)) && AtHand(old(Free()), old(ntp), old(rxBuff[..])) + |bs| > 1)
    {
      hide Valid, Refilled, Bufs, AtHand;
      NothingTaken(bs);
      if |bs| > size {
        return BadRequest, |bs|;
      }
      Sizes();
      var next := ntp + 1;
      if next >= size {
        next := 0;
      }
      FreeFacts(next);
      if next == ntc {
        return Success, |bs|;
      }
      ghost var n, from, t0, d0, live0 := Free(), ntp, rxBuff[..], desc[..], live;
      unposted := PostFree(bs, n);
      if n > 1 {
        TailMoves(n, from, t0, d0, live0, bs, unposted);
      }
      return Success, unposted;
    }

    /** The buffers in the `n` free slots from the tail `from` on. */
    ghost function AtHand(n: nat, from: nat, t: seq<Dma?>): nat
    {
      if |t| == size && from < size && n <= size then Count(Window(size, t, from, n)) else 0
    }

    lemma TailMoves(n: nat, from: nat, t0: seq<Dma?>, d0: seq<Desc>, live0: nat, bs: seq<Dma>, unposted: nat)
      requires n > 1 && Refilled(n, from, t0, d0, live0, bs, unposted)
      ensures ntp != from <==> AtHand(n, from, t0) + |bs| > 1
    {
      hide Fill, Taken, Count, Describing;
    }
  }

  /** After a drained ring the driver meets its own tail, and only then. */
  lemma DrainedMeans(q: RxQueue)
    requires q.Valid()
    ensures q.live == 0 <==> q.ntc == q.ntp
    ensures q.Free() > 1 <==> q.ntc != q.ntp && q.ntc != After(q.size, q.ntp, 1)
    ensures q.done < q.live ==> q.head != q.tail
  {
  }

  /** From a new queue to a drained one: the device uses every buffer, and the driver takes all messages at once. */
  method Drain(buffs: seq<Dma>, ds: seq<Desc>) returns (q: RxQueue, r: Status, msgs: seq<RxMsg>)
    requires buffs != [] && forall i, j :: 0 <= i < j < |buffs| ==> buffs[i] != buffs[j]
    requires |ds| == |buffs| && forall k :: 0 <= k < |ds| ==> ds[k].flags.dd
    ensures q.Valid() && |msgs| == |buffs| && q.live == 0 && q.ntc == q.ntp
  {
    hide RxQueue.Valid, Bufs, Carried, Received;
    q := new RxQueue(buffs);
    for k := 0 to |ds|
      invariant q.Valid() && q.live == |buffs| && q.done == k && q.size == |buffs| + 1
      invariant fresh(q) && fresh(q.desc) && fresh(q.rxBuff)
    {
      DrainedMeans(q);
      q.DeviceStep(ds[k]);
    }
    r, msgs := q.Recv(|buffs|);
    DrainedMeans(q);
  }

  /** What can happen to a queue. */
  datatype Event = Take(count: nat) | Give(bs: seq<Dma>) | Arrive(d: Desc)

  /** A driver gives back buffers that are not in the ring, each once; the device only goes on to posted buffers. */
  predicate Orderly(q: RxQueue, e: Event)
    reads q, q.rxBuff
  {
    match e
    case Take(count) => true
    case Give(bs) =>
      && (forall b :: b in bs ==> b !in q.rxBuff[..])
      && (forall i, j :: 0 <= i < j < |bs| ==> bs[i] != bs[j])
    case Arrive(d) => d.flags.dd && q.head != q.tail
  }

  /** One event in the life of a queue; `left` is how many buffers the driver has been left with. */
  method Happen(q: RxQueue, e: Event) returns (got: seq<RxMsg>, left: nat)
    requires q.Valid() && Orderly(q, e)
    modifies q, q.desc, q.rxBuff
    ensures q.Valid() && q.given == old(q.given) + Kept(e, left) && q.carried == old(q.carried) + Carried(got)
    ensures e.Give? ==> left <= |e.bs|
  {
    hide RxQueue.Valid, Bufs, Carried;
    got, left := [], 0;
    CarriedNone();
    match e
    case Take(count) =>
      var r;
      r, got := q.Recv(count);
    case Give(bs) =>
      var r;
      ghost var filled;
      r, left, filled := q.Post(bs);
    case Arrive(d) =>
      q.DeviceStep(d);
  }

  /** The buffers that one event has brought into the ring. */
  ghost function Kept(e: Event, left: nat): multiset<Dma?>
  {
    if e.Give? && left <= |e.bs| then Bufs(e.bs[..|e.bs| - left]) else multiset{}
  }

  /** The buffers that a series of events has brought into the ring: those given but for those left over each time. */
  ghost function Accepted(events: seq<Event>, left: seq<nat>): multiset<Dma?>
    requires |events| == |left|
  {
    if events == [] then multiset{}
    else Accepted(events[..|events| - 1], left[..|events| - 1]) + Kept(events[|events| - 1], left[|events| - 1])
  }

  lemma AcceptedStep(events: seq<Event>, left: seq<nat>, n: nat, l: nat)
    requires |left| == n < |events|
    ensures Accepted(events[..n + 1], left + [l]) == Accepted(events[..n], left) + Kept(events[n], l)
  {
    assert events[..n + 1][..n] == events[..n] && (left + [l])[..n] == left;
  }

  lemma Balance(q: RxQueue)
    requires q.Valid()
    ensures Bufs(q.rxBuff[..]) + q.carried == q.given && Distinct(q.rxBuff[..])
  {
  }

  lemma {:induction false} CarriedJoin(a: seq<RxMsg>, b: seq<RxMsg>)
    ensures Carried(a + b) == Carried(a) + Carried(b)
  {
    if b == [] {
      assert a + b == a;
    } else {
      var rest, m := b[..|b| - 1], b[|b| - 1];
      assert a + b == (a + rest) + [m] && b == rest + [m];
      CarriedStep(a + rest, m);
      CarriedJoin(a, rest);
      CarriedStep(rest, m);
    }
  }

  lemma CancelCarried(b: multiset<Dma?>, c0: multiset<Dma?>, c: multiset<Dma?>, b0: multiset<Dma?>,
                      taken: multiset<Dma?>)
    requires b + (c0 + c) == (b0 + c0) + taken
    ensures b + c == b0 + taken
  {
    assert b + c == (b + (c0 + c)) - c0;
    assert b0 + taken == ((b0 + c0) + taken) - c0;
  }

  /** Conservation over any run, up to the first event that is out of order: what was in the ring or has been given to
      it, and not been left over, is in the ring still, each buffer in one slot, or has left it with a message. */
  method Run(q: RxQueue, events: seq<Event>) returns (n: nat, msgs: seq<RxMsg>, left: seq<nat>)
    requires q.Valid()
    modifies q, q.desc, q.rxBuff
    ensures q.Valid() && n <= |events| && (n < |events| ==> !Orderly(q, events[n])) && |left| == n
    ensures Bufs(q.rxBuff[..]) + Carried(msgs) == Bufs(old(q.rxBuff[..])) + Accepted(events[..n], left)
    ensures forall i, j :: 0 <= i < j < q.rxBuff.Length && q.rxBuff[i] != null ==> q.rxBuff[i] != q.rxBuff[j]
    ensures forall k :: 0 <= k < n && events[k].Give? ==> left[k] <= |events[k].bs|
  {
    hide RxQueue.Valid, Bufs, Carried, Orderly, Kept, Accepted;
    n, msgs, left := 0, [], [];
    CarriedNone();
    AcceptedNone();
    Balance(q);
    ghost var held := Bufs(q.rxBuff[..]);
    while n < |events|
      invariant q.Valid() && n <= |events| && |left| == n
      invariant q.given == old(q.given) + Accepted(events[..n], left) && q.carried == old(q.carried) + Carried(msgs)
      invariant forall k :: 0 <= k < n && events[k].Give? ==> left[k] <= |events[k].bs|
    {
      if !Orderly(q, events[n]) {
        break;
      }
      var got, l := Happen(q, events[n]);
      CarriedJoin(msgs, got);
      AcceptedStep(events, left, n, l);
      msgs, left := msgs + got, left + [l];
      n := n + 1;
    }
    Balance(q);
    CancelCarried(Bufs(q.rxBuff[..]), old(q.carried), Carried(msgs), held, Accepted(events[..n], left));
  }

  lemma AcceptedNone()
    ensures forall events: seq<Event>, left: seq<nat> ::
      |events| == |left| == 0 ==> Accepted(events, left) == multiset{}
  {
  }

  datatype Call = Receive(count: nat) | GiveBack(bs: seq<Dma>)

  /** Receiving from a drained ring. */
  method ReceiveIdle(q: RxQueue, count: nat)
    requires q.Valid() && q.live == 0
    modifies q, q.desc, q.rxBuff
    ensures q.Valid() && q.live == 0 && q.tail == old(q.tail) && q.rxBuff[..] == old(q.rxBuff[..])
  {
    hide RxQueue.Valid, Bufs, Carried, After;
    Idle(q);
    q.Sizes();
    var r, msgs := q.Recv(count);
    q.Sizes();
  }

  /** Giving buffers back to a drained ring. */
  method GiveIdle(q: RxQueue, bs: seq<Dma>)
    requires q.Valid() && q.live == 0
    requires (forall b :: b in bs ==> b !in q.rxBuff[..]) && forall i, j :: 0 <= i < j < |bs| ==> bs[i] != bs[j]
    modifies q, q.desc, q.rxBuff
    ensures q.Valid() && q.live == 0 && q.tail == old(q.tail) && q.rxBuff[..] == old(q.rxBuff[..])
  {
    hide RxQueue.Valid, Bufs, Fill, Window, After;
    Idle(q);
    q.Sizes();
    var r, unposted;
    ghost var filled;
    r, unposted, filled := q.Post(bs);
    q.Sizes();
  }

  /** Once every posted buffer has been received before any was given back, no call of the driver moves the ring
      again. */
  method DrainedForGood(q: RxQueue, calls: seq<Call>)
    requires q.Valid() && q.live == 0
    requires forall k :: 0 <= k < |calls| && calls[k].GiveBack? ==>
               && (forall b :: b in calls[k].bs ==> b !in q.rxBuff[..])
               && forall i, j :: 0 <= i < j < |calls[k].bs| ==> calls[k].bs[i] != calls[k].bs[j]
    modifies q, q.desc, q.rxBuff
    ensures q.Valid() && q.live == 0 && q.head == q.tail == old(q.tail) && q.rxBuff[..] == old(q.rxBuff[..])
  {
    hide RxQueue.Valid;
    Idle(q);
    for k := 0 to |calls|
      invariant q.Valid() && q.live == 0 && q.tail == old(q.tail) && q.rxBuff[..] == old(q.rxBuff[..])
    {
      match calls[k]
      case Receive(count) => ReceiveIdle(q, count);
      case GiveBack(bs) => GiveIdle(q, bs);
    }
    Idle(q);
  }

  lemma Idle(q: RxQueue)
    requires q.Valid() && q.live == 0
    ensures q.done == 0 && q.head == q.tail && q.Free() == 0 && Ahead(q.size, q.ntp, q.ntc) == 0
  {
  }
}
