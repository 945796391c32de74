/**
 The send side of the mailbox: a ring of descriptors shared with the device, and the messages behind them.
 */
module TxQueues {
  import opened CtlqRings

  datatype Buffer = NoBuffer | Mapped(high: nat, low: nat)

  /** A message of the caller; the queue keeps a reference to it until it is cleaned. */
  class Msg {
    const opcode: nat
    const funcId: nat
    const hostId: bv16
    const cookie: (nat, nat)
    const dataLen: bv16
    const payload: Buffer
    const context: Params
    var status: nat

    constructor (opcode: nat, funcId: nat, hostId: bv16, cookie: (nat, nat), dataLen: bv16,
                 payload: Buffer, context: Params)
    {
      this.opcode, this.funcId, this.hostId, this.cookie := opcode, funcId, hostId, cookie;
      this.dataLen, this.payload, this.context, status := dataLen, payload, context, 0;
    }
  }

  /** A message with data but no buffer cannot be sent. */
  predicate Malformed(m: Msg)
  {
    m.dataLen != 0 && m.payload.NoBuffer?
  }

  /** The descriptor of a message. */
  function Encoded(m: Msg): Desc
    requires !Malformed(m)
  {
    var c := m.context;
    if m.dataLen != 0 then
      Desc(Flags(false, false, 0, true, true, m.hostId & 0x7), m.opcode, m.dataLen, m.funcId, m.cookie.0, m.cookie.1,
           Params(c.word0, c.word1, m.payload.high, m.payload.low))
    else
      Desc(Flags(false, false, 0, false, false, m.hostId & 0x7), m.opcode, 0, m.funcId, m.cookie.0, m.cookie.1, c)
  }

  /** The fields of a descriptor that are written before the data of the message is looked at. */
  function Header(d: Desc, m: Msg): Desc
  {
    d.(opcode := m.opcode, ret := m.funcId, cookieHigh := m.cookie.0, cookieLow := m.cookie.1,
       flags := NO_FLAGS.(hostId := m.hostId & 0x7))
  }

  /** The rest of the descriptor; the length is or-ed into what is there. */
  function Body(d: Desc, m: Msg): Desc
  {
    if m.dataLen != 0 && m.payload.Mapped? then
      d.(dataLen := d.dataLen | m.dataLen, flags := d.flags.(buf := true, rd := true),
         params := Params(m.context.word0, m.context.word1, m.payload.high, m.payload.low))
    else
      d.(params := m.context)
  }

  /** On a descriptor that asks for no data yet, the two parts give exactly the message. */
  lemma BodyEncoded(d: Desc, m: Msg)
    requires d.dataLen == 0 && !Malformed(m)
    ensures Body(Header(d, m), m) == Encoded(m)
  {
  }

  /** The slots from `ntc` up to `ntu` hold the messages `q`, and the others hold nothing and ask for no data. */
  ghost predicate Holding(size: nat, ntc: nat, ntu: nat, d: seq<Desc>, t: seq<Msg?>, q: seq<Msg>)
  {
    && |d| == |t| == size && ntc < size && |q| < size && ntu == After(size, ntc, |q|)
    && (forall k :: 0 <= k < |q| ==> t[After(size, ntc, k)] == q[k])
    && forall k :: |q| <= k < size ==> t[After(size, ntc, k)] == null && d[After(size, ntc, k)].dataLen == 0
  }

  /** The device is `done` messages past the oldest one and knows of `posted`; it has written back just those. */
  ghost predicate Seen(size: nat, ntc: nat, head: nat, tail: nat, d: seq<Desc>, done: nat, posted: nat, n: nat)
  {
    && |d| == size && ntc < size && done <= posted <= n < size
    && head == After(size, ntc, done) && tail == After(size, ntc, posted)
    && forall k :: 0 <= k < size ==> (d[After(size, ntc, k)].flags.dd <==> k < done)
  }

  lemma HoldPut(size: nat, ntc: nat, ntu: nat, d: seq<Desc>, t: seq<Msg?>, q: seq<Msg>, m: Msg, e: Desc)
    requires Holding(size, ntc, ntu, d, t, q) && |q| + 1 < size
    ensures ntu < size && d[ntu].dataLen == 0
    ensures Holding(size, ntc, After(size, ntu, 1), d[ntu := e], t[ntu := m], q + [m])
  {
  }

  lemma HoldTouch(size: nat, ntc: nat, ntu: nat, d: seq<Desc>, t: seq<Msg?>, q: seq<Msg>, i: nat, e: Desc)
    requires Holding(size, ntc, ntu, d, t, q) && i < size && e.dataLen == d[i].dataLen
    ensures Holding(size, ntc, ntu, d[i := e], t, q)
  {
  }

  lemma HoldTake(size: nat, ntc: nat, ntu: nat, d: seq<Desc>, t: seq<Msg?>, q: seq<Msg>)
    requires Holding(size, ntc, ntu, d, t, q) && |q| > 0
    ensures ntc < size && t[ntc] == q[0]
    ensures Holding(size, After(size, ntc, 1), ntu, d[ntc := ZEROED], t[ntc := null], q[1..])
  {
    assert t[After(size, ntc, 0)] == q[0];
    var ntc' := After(size, ntc, 1);
    forall k | 0 <= k < size
      ensures After(size, ntc', k) == After(size, ntc, if k + 1 == size then 0 else k + 1)
    {
    }
  }

  lemma SeenPut(size: nat, ntc: nat, head: nat, tail: nat, d: seq<Desc>, done: nat, posted: nat, n: nat, e: Desc)
    requires Seen(size, ntc, head, tail, d, done, posted, n) && n + 1 < size && !e.flags.dd
    ensures Seen(size, ntc, head, tail, d[After(size, ntc, n) := e], done, posted, n)
    ensures Seen(size, ntc, head, tail, d[After(size, ntc, n) := e], done, posted, n + 1)
  {
  }

  lemma SeenPost(size: nat, ntc: nat, head: nat, tail: nat, d: seq<Desc>, done: nat, posted: nat, n: nat)
    requires Seen(size, ntc, head, tail, d, done, posted, n)
    ensures Seen(size, ntc, head, After(size, ntc, n), d, done, n, n)
  {
  }

  lemma SeenStep(size: nat, ntc: nat, head: nat, tail: nat, d: seq<Desc>, done: nat, posted: nat, n: nat, e: Desc)
    requires Seen(size, ntc, head, tail, d, done, posted, n) && head != tail && e.flags.dd
    ensures head < size && Seen(size, ntc, After(size, head, 1), tail, d[head := e], done + 1, posted, n)
  {
  }

  lemma SeenTake(size: nat, ntc: nat, head: nat, tail: nat, d: seq<Desc>, done: nat, posted: nat, n: nat)
    requires Seen(size, ntc, head, tail, d, done, posted, n) && d[ntc].flags.dd
    ensures done > 0 && Seen(size, After(size, ntc, 1), head, tail, d[ntc := ZEROED], done - 1, posted - 1, n - 1)
  {
    assert After(size, ntc, 0) == ntc;
    var ntc' := After(size, ntc, 1);
    forall k | 0 <= k < size
      ensures After(size, ntc', k) == After(size, ntc, if k + 1 == size then 0 else k + 1)
    {
    }
  }

  /** The first `n` messages are in the descriptors from slot `from` on. */
  ghost predicate Written(d: seq<Desc>, size: nat, from: nat, msgs: seq<Msg>, n: nat)
  {
    && |d| == size && from < size && n <= |msgs| && n < size
    && forall k :: 0 <= k < n ==> !Malformed(msgs[k]) && d[After(size, from, k)] == Encoded(msgs[k])
  }

  /** What the descriptors say, field by field: the header of the message and its context, and for a message with data
      the length, the two flags of a buffer and the two halves of its address. */
  lemma WrittenMeans(d: seq<Desc>, size: nat, from: nat, msgs: seq<Msg>, n: nat)
    requires Written(d, size, from, msgs, n)
    ensures forall k :: 0 <= k < n ==>
      var e, m := d[(from + k) % size], msgs[k];
      && e.opcode == m.opcode && e.ret == m.funcId && e.dataLen == m.dataLen
      && e.cookieHigh == m.cookie.0 && e.cookieLow == m.cookie.1
      && e.flags == Flags(false, false, 0, m.dataLen != 0, m.dataLen != 0, m.hostId & 0x7)
      && e.params.word0 == m.context.word0 && e.params.word1 == m.context.word1
      && (m.dataLen != 0 ==>
            m.payload.Mapped? && e.params.word2 == m.payload.high && e.params.word3 == m.payload.low)
      && (m.dataLen == 0 ==> e.params.word2 == m.context.word2 && e.params.word3 == m.context.word3)
  {
    forall k | 0 <= k < n
      ensures After(size, from, k) == (from + k) % size && d[After(size, from, k)] == Encoded(msgs[k])
    {
      AfterExact(size, from, k);
    }
  }

  lemma WrittenNone(d: seq<Desc>, size: nat, from: nat, msgs: seq<Msg>)
    requires |d| == size && from < size
    ensures Written(d, size, from, msgs, 0)
  {
  }

  lemma WrittenKeep(d: seq<Desc>, d': seq<Desc>, size: nat, from: nat, msgs: seq<Msg>, n: nat)
    requires Written(d, size, from, msgs, n) && |d'| == size
    requires d' == d[After(size, from, n) := d'[After(size, from, n)]]
    ensures Written(d', size, from, msgs, n)
  {
  }

  lemma WrittenStep(d: seq<Desc>, d': seq<Desc>, size: nat, from: nat, msgs: seq<Msg>, n: nat)
    requires Written(d, size, from, msgs, n) && |d'| == size && n < |msgs| && n + 1 < size && !Malformed(msgs[n])
    requires d' == d[After(size, from, n) := d'[After(size, from, n)]] && d'[After(size, from, n)] == Encoded(msgs[n])
    ensures Written(d', size, from, msgs, n + 1)
  {
  }

  /** Each message returned carries the return value of its descriptor, unless it was queued once more. */
  ghost predicate Statuses(msgs: seq<Msg>, d: seq<Desc>, size: nat, from: nat)
    reads msgs
  {
    && |d| == size && from < size && |msgs| < size
    && forall k :: 0 <= k < |msgs| && msgs[k] !in msgs[k + 1..] ==>
         msgs[k].status == d[After(size, from, k)].ret % 256
  }

  /** The same, whatever the status of message `m` is. */
  ghost predicate StatusesBut(msgs: seq<Msg>, m: Msg, d: seq<Desc>, size: nat, from: nat)
    reads set x | x in msgs && x != m
  {
    && |d| == size && from < size && |msgs| < size
    && forall k :: 0 <= k < |msgs| && msgs[k] != m && msgs[k] !in msgs[k + 1..] ==>
         msgs[k].status == d[After(size, from, k)].ret % 256
  }

  lemma StatusesLess(msgs: seq<Msg>, m: Msg, d: seq<Desc>, size: nat, from: nat)
    requires Statuses(msgs, d, size, from)
    ensures StatusesBut(msgs, m, d, size, from)
  {
  }

  lemma StatusesMore(msgs: seq<Msg>, m: Msg, d: seq<Desc>, size: nat, from: nat)
    requires StatusesBut(msgs, m, d, size, from) && |msgs| + 1 < size
    requires m.status == d[After(size, from, |msgs|)].ret % 256
    ensures Statuses(msgs + [m], d, size, from)
  {
    forall k | 0 <= k < |msgs| && msgs[k] !in (msgs + [m])[k + 1..]
      ensures msgs[k] !in msgs[k + 1..] && msgs[k] != m
    {
      assert (msgs + [m])[k + 1..] == msgs[k + 1..] + [m];
    }
  }

  lemma StatusesNone(d: seq<Desc>, size: nat, from: nat)
    requires |d| == size && from < size
    ensures Statuses([], d, size, from)
  {
  }

  class TxQueue {
    const size: nat
    const desc: array<Desc>
    const txMsg: array<Msg?>
    var ntu: nat
    var ntc: nat
    var tail: nat

    /** Where the device reads next. */
    var head: nat

    /** The messages in the ring, oldest first. */
    ghost var outstanding: seq<Msg>

    /** All messages ever queued, and all ever returned. */
    ghost var sent: seq<Msg>
    ghost var returned: seq<Msg>

    /** How many of the outstanding messages the device knows of, and how many it has dealt with. */
    ghost var posted: nat
    ghost var done: nat

    ghost predicate Valid()
      reads this, desc, txMsg
    {
      && 0 < size == desc.Length == txMsg.Length && tail < size && head < size
      && Holding(size, ntc, ntu, desc[..], txMsg[..], outstanding)
      && sent == returned + outstanding
    }

    /** What the device and the driver know of each other, as long as no unfinished message is forced out. */
    ghost predicate Synced()
      reads this, desc
    {
      Seen(size, ntc, head, tail, desc[..], done, posted, |outstanding|)
    }

    /** idpf_ctlq_add() for a send queue; the ring memory comes zeroed. */
    constructor (size: nat)
      requires 0 < size
      ensures Valid() && Synced() && fresh(desc) && fresh(txMsg) && this.size == size
      ensures outstanding == [] && sent == [] && returned == []
      ensures ntu == ntc == tail == head == 0 && desc.Length == txMsg.Length == size
      ensures forall i :: 0 <= i < size ==>
        txMsg[i] == null && desc[i] == Desc(Flags(false, false, 0, false, false, 0), 0, 0, 0, 0, 0, Params(0, 0, 0, 0))
    {
      this.size := size;
      desc := new Desc[size](_ => ZEROED);
      txMsg := new Msg?[size](_ => null);
      ntu, ntc, tail, head := 0, 0, 0, 0;
      outstanding, sent, returned, posted, done := [], [], [], 0, 0;
    }

    /** IDPF_CTLQ_DESC_UNUSED: all slots but one can be in use. */
    function Unused(): (n: nat)
      requires Valid()
      reads this, desc, txMsg
      ensures n == size - 1 - |outstanding|
    {
      (if ntc > ntu then 0 else size) + ntc - ntu - 1
    }

    lemma HoldHere(i: nat)
      requires Valid() && i == ntu
      ensures i < size && i == After(size, ntc, |outstanding|) && |outstanding| < size && ntc < size
    {
    }

    method FillSlot(i: nat, d: Desc)
      requires i < desc.Length
      modifies desc
      ensures desc[..] == old(desc[..])[i := d]
    {
      desc[i] := d;
    }

    method KeepMsg(i: nat, m: Msg?)
      requires i < txMsg.Length
      modifies txMsg
      ensures txMsg[..] == old(txMsg[..])[i := m]
    {
      txMsg[i] := m;
    }

    /** The descriptor is partly written when the message turns out to have no buffer; the slot stays free. */
    method Reject(d: Desc)
      requires Valid() && ntu < size && d.dataLen == desc[ntu].dataLen && !d.flags.dd
      modifies desc
      ensures Valid() && desc[..] == old(desc[..])[ntu := d]
      ensures old(Synced()) && |outstanding| + 1 < size ==> Synced()
    {
      hide Holding, Seen;
      HoldHere(ntu);
      HoldTouch(size, ntc, ntu, desc[..], txMsg[..], outstanding, ntu, d);
      if Synced() && |outstanding| + 1 < size {
        SeenPut(size, ntc, head, tail, desc[..], done, posted, |outstanding|, d);
      }
      FillSlot(ntu, d);
    }

    /** The descriptor and the reference to the message go into the next free slot. */
    method Accept(m: Msg, d: Desc)
      requires Valid() && |outstanding| + 1 < size && !d.flags.dd && ntu < size
      modifies this`ntu, this`outstanding, this`sent, desc, txMsg
      ensures Valid() && outstanding == old(outstanding) + [m] && sent == old(sent) + [m]
      ensures desc[..] == old(desc[..])[old(ntu) := d] && ntu == After(size, old(ntu), 1)
      ensures old(Synced()) ==> Synced()
    {
      hide Holding, Seen;
      HoldHere(ntu);
      HoldPut(size, ntc, ntu, desc[..], txMsg[..], outstanding, m, d);
      if Synced() {
        SeenPut(size, ntc, head, tail, desc[..], done, posted, |outstanding|, d);
      }
      FillSlot(ntu, d);
      KeepMsg(ntu, m);
      ntu := ntu + 1;
      if ntu == size {
        ntu := 0;
      }
      outstanding, sent := outstanding + [m], sent + [m];
    }

    lemma FreeSlot()
      requires Valid() && |outstanding| + 1 < size
      ensures ntu < size && desc[ntu].dataLen == 0
    {
    }

    /** Put one message into the next free slot. */
    method Enqueue(m: Msg) returns (ok: bool)
      requires Valid() && |outstanding| + 1 < size
      modifies this`ntu, this`outstanding, this`sent, desc, txMsg
      ensures Valid() && ok == !Malformed(m)
      ensures outstanding == old(outstanding) + (if ok then [m] else [])
      ensures sent == old(sent) + if ok then [m] else []
      ensures old(Synced()) ==> Synced()
      ensures old(ntu) < size && |desc[..]| == size && desc[..] == old(desc[..])[old(ntu) := desc[old(ntu)]]
      ensures if ok then desc[old(ntu)] == Encoded(m) && ntu == After(size, old(ntu), 1) else ntu == old(ntu)
    {
      hide Valid, Synced;
      FreeSlot();
      Sizes();
      var d := Header(desc[ntu], m);
      if m.dataLen != 0 {
        if m.payload.NoBuffer? {
          Reject(d);
          return false;
        }
      }
      BodyEncoded(desc[ntu], m);
      Accept(m, Body(d, m));
      return true;
    }

    lemma Sizes()
      requires Valid()
      ensures size == desc.Length == txMsg.Length && |outstanding| < size && ntc < size && ntu < size
    {
    }

    /** idpf_ctlq_send(): `n` is how many of the messages have been queued. */
    method Send(msgs: seq<Msg>) returns (r: Status, ghost n: nat)
      requires Valid()
      modifies this`ntu, this`tail, this`outstanding, this`sent, this`posted, desc, txMsg
      ensures Valid() && (old(Synced()) ==> Synced()) && n <= |msgs|
      ensures outstanding == old(outstanding) + msgs[..n] && sent == old(sent) + msgs[..n]
      ensures n < size == desc.Length && ntu == (old(ntu) + n) % size
      ensures forall k :: 0 <= k < n ==>
        var d, m := desc[(old(ntu) + k) % size], msgs[k];
        && d.opcode == m.opcode && d.ret == m.funcId && d.dataLen == m.dataLen
        && d.cookieHigh == m.cookie.0 && d.cookieLow == m.cookie.1
        && d.flags == Flags(false, false, 0, m.dataLen != 0, m.dataLen != 0, m.hostId & 0x7)
        && d.params.word0 == m.context.word0 && d.params.word1 == m.context.word1
        && (m.dataLen != 0 ==>
              m.payload.Mapped? && d.params.word2 == m.payload.high && d.params.word3 == m.payload.low)
        && (m.dataLen == 0 ==> d.params.word2 == m.context.word2 && d.params.word3 == m.context.word3)
      ensures r == if |old(outstanding)| + 1 == size || size - 1 - |old(outstanding)| < |msgs| then NoSpace
                   else if n == |msgs| then Success else BadMessage
      ensures r == NoSpace ==> n == 0 && tail == old(tail)
      ensures r == BadMessage ==> msgs[n].dataLen != 0 && msgs[n].payload.NoBuffer? && tail == old(tail)
      ensures r == Success ==> tail == ntu
    {
      hide Valid, Synced, Written;
      r, n := SendLocked(msgs);
      WrittenMeans(desc[..], size, old(ntu), msgs, n);
    }

    /** The part of idpf_ctlq_send() that runs under the lock. */
    method SendLocked(msgs: seq<Msg>) returns (r: Status, ghost n: nat)
      requires Valid()
      modifies this`ntu, this`tail, this`outstanding, this`sent, this`posted, desc, txMsg
      ensures Valid() && (old(Synced()) ==> Synced()) && n <= |msgs|
      ensures outstanding == old(outstanding) + msgs[..n] && sent == old(sent) + msgs[..n]
      ensures n < size == desc.Length && ntu == (old(ntu) + n) % size && Written(desc[..], size, old(ntu), msgs, n)
      ensures r == if old(Unused()) == 0 || old(Unused()) < |msgs| then NoSpace
                   else if n == |msgs| then Success else BadMessage
      ensures r == NoSpace ==> n == 0 && tail == old(tail)
      ensures r == BadMessage ==> Malformed(msgs[n]) && tail == old(tail)
      ensures r == Success ==> tail == ntu
    {
      hide Valid, Synced, Written;
      n := 0;
      Sizes();
      WrittenNone(desc[..], size, ntu, msgs);
      AfterExact(size, ntu, 0);
      var avail := Unused();
      if avail == 0 || avail < |msgs| {
        return NoSpace, 0;
      }
      for i := 0 to |msgs|
        invariant Valid() && (old(Synced()) ==> Synced()) && n == i && ntu < size && tail == old(tail)
        invariant ntu == After(size, old(ntu), i) && Written(desc[..], size, old(ntu), msgs, i)
        invariant outstanding == old(outstanding) + msgs[..i] && sent == old(sent) + msgs[..i]
      {
        ghost var was := desc[..];
        Sizes();
        AfterExact(size, old(ntu), i);
        var ok := Enqueue(msgs[i]);
        if !ok {
          WrittenKeep(was, desc[..], size, old(ntu), msgs, i);
          return BadMessage, i;
        }
        WrittenStep(was, desc[..], size, old(ntu), msgs, i);
        assert msgs[..i + 1] == msgs[..i] + [msgs[i]];
        n := i + 1;
        Sizes();
      }
      AfterExact(size, old(ntu), n);
      Post();
      return Success, n;
    }

    /** The tail write tells the device of everything in the ring. */
    method Post()
      requires Valid()
      modifies this`tail, this`posted
      ensures Valid() && tail == ntu && (old(Synced()) ==> Synced())
    {
      hide Holding, Seen;
      HoldHere(ntu);
      if Synced() {
        SeenPost(size, ntc, head, tail, desc[..], done, posted, |outstanding|);
      }
      tail := ntu;
      posted := |outstanding|;
    }

    /** The device deals with the message at its head: it writes the descriptor back and moves on. */
    method DeviceStep(ret: nat)
      requires Valid() && head != tail
      modifies this`head, this`done, desc
      ensures Valid() && head == After(size, old(head), 1)
      ensures desc[..] ==
        old(desc[..])[old(head) := old(desc[head]).(ret := ret, flags := old(desc[head]).flags.(dd := true))]
      ensures old(Synced()) ==> Synced() && done == old(done) + 1
    {
      hide Holding, Seen;
      ghost var was := desc[..];
      var d := desc[head].(ret := ret, flags := desc[head].flags.(dd := true));
      HoldTouch(size, ntc, ntu, was, txMsg[..], outstanding, head, d);
      if Synced() {
        SeenStep(size, ntc, head, tail, was, done, posted, |outstanding|, d);
      }
      FillSlot(head, d);
      head := head + 1;
      if head == size {
        head := 0;
      }
      done := done + 1;
    }

    /** The slot is emptied and the message gets the return value, without the internal code of the firmware. */
    method Reclaim(m: Msg)
      requires ntc < desc.Length == txMsg.Length
      modifies desc, txMsg, m`status
      ensures m.status == old(desc[ntc].ret) % 256
      ensures desc[..] == old(desc[..])[ntc := ZEROED] && txMsg[..] == old(txMsg[..])[ntc := null]
    {
      m.status := desc[ntc].ret % 256;
      txMsg[ntc] := null;
      desc[ntc] := ZEROED;
    }

    /** Take the oldest message out of the ring. */
    method TakeOne(m: Msg)
      requires Valid() && |outstanding| > 0 && m == outstanding[0] && ntc < size
      modifies this`ntc, this`outstanding, this`returned, this`posted, this`done, desc, txMsg, m`status
      ensures Valid() && outstanding == old(outstanding)[1..] && returned == old(returned) + [m]
      ensures m.status == old(desc[ntc].ret) % 256 && ntc == After(size, old(ntc), 1)
      ensures desc[..] == old(desc[..])[old(ntc) := ZEROED]
      ensures old(Synced() && desc[ntc].flags.dd) ==> Synced() && done == old(done) - 1
    {
      hide Holding, Seen;
      ghost var d, t, synced := desc[..], txMsg[..], Synced() && desc[ntc].flags.dd;
      HoldTake(size, ntc, ntu, d, t, outstanding);
      if synced {
        SeenTake(size, ntc, head, tail, d, done, posted, |outstanding|);
      }
      assert [outstanding[0]] + outstanding[1..] == outstanding;
      Reclaim(m);
      Advance();
    }

    method Advance()
      requires outstanding != [] && ntc < size
      modifies this`ntc, this`outstanding, this`returned, this`posted, this`done
      ensures ntc == After(size, old(ntc), 1)
      ensures outstanding == old(outstanding)[1..] && returned == old(returned) + [old(outstanding)[0]]
      ensures posted == if old(posted) > 0 then old(posted) - 1 else 0
      ensures done == if old(done) > 0 then old(done) - 1 else 0
    {
      ntc := ntc + 1;
      if ntc == size {
        ntc := 0;
      }
      outstanding, returned := outstanding[1..], returned + [outstanding[0]];
      posted, done := if posted > 0 then posted - 1 else 0, if done > 0 then done - 1 else 0;
    }
  
    /** The same, with the messages taken before it. */
    method TakeNext(m: Msg, ghost msgs: seq<Msg>, ghost d0: seq<Desc>, ghost from: nat)
      requires Valid() && |outstanding| > 0 && m == outstanding[0] && ntc < size
      requires Statuses(msgs, d0, size, from) && |msgs| + 1 < size
      requires ntc == After(size, from, |msgs|) && desc[ntc] == d0[ntc]
      modifies this`ntc, this`outstanding, this`returned, this`posted, this`done, desc, txMsg, m`status
      ensures Valid() && outstanding == old(outstanding)[1..] && returned == old(returned) + [m]
      ensures ntc == After(size, old(ntc), 1) && desc[..] == old(desc[..])[old(ntc) := ZEROED]
      ensures old(Synced() && desc[ntc].flags.dd) ==> Synced() && done == old(done) - 1
      ensures Statuses(msgs + [m], d0, size, from)
    {
      hide Valid, Synced, Statuses, StatusesBut;
      StatusesLess(msgs, m, d0, size, from);
      TakeOne(m);
      StatusesMore(msgs, m, d0, size, from);
    }

    /** What the driver finds at the slot it cleans next. */
    lemma Oldest()
      requires Valid()
      ensures ntc < size == desc.Length == txMsg.Length && |outstanding| < size
      ensures txMsg[ntc] == if outstanding == [] then null else outstanding[0]
    {
      assert After(size, ntc, 0) == ntc;
    }

    lemma SyncedHere()
      requires Valid() && Synced()
      ensures ntc < desc.Length && (desc[ntc].flags.dd <==> done > 0) && done <= |outstanding|
    {
      assert After(size, ntc, 0) == ntc;
    }

    /** The part of __idpf_ctlq_clean_sq() that runs under the lock. */
    method CleanLoop(count: nat, force: bool) returns (msgs: seq<Msg>)
      requires Valid() && count <= size
      modifies this`ntc, this`outstanding, this`returned, this`posted, this`done, desc, txMsg
      modifies (set m | m in outstanding)`status
      ensures Valid() && |msgs| <= |old(outstanding)| && |msgs| <= count
      ensures msgs == old(outstanding)[..|msgs|] && outstanding == old(outstanding)[|msgs|..]
      ensures returned == old(returned) + msgs && ntc == After(size, old(ntc), |msgs|)
      ensures |msgs| < count && |msgs| < |old(outstanding)| ==>
        !force && !old(desc[..])[After(size, old(ntc), |msgs|)].flags.dd
      ensures Statuses(msgs, old(desc[..]), size, old(ntc)) && Cleared(desc[..], size, old(ntc), |msgs|)
      ensures Rest(old(desc[..]), desc[..], size, old(ntc), |msgs|)
      ensures !force ==> forall k :: 0 <= k < |msgs| ==> old(desc[..])[After(size, old(ntc), k)].flags.dd
      ensures !force && old(Synced()) ==>
        Synced() && done == old(done) - |msgs| && |msgs| == if count < old(done) then count else old(done)
    {
      hide Valid, Synced, Statuses, Rest, Cleared;
      ghost var d0 := desc[..];
      Oldest();
      msgs := [];
      RestAll(d0, size, ntc);
      StatusesNone(d0, size, ntc);
      ClearedNone(d0, size, ntc);
      var i := 0;
      while i < count
        invariant Valid() && i == |msgs| <= |old(outstanding)| && i <= count && |d0| == size && ntc < size
        invariant msgs == old(outstanding)[..i] && outstanding == old(outstanding)[i..]
        invariant returned == old(returned) + msgs
        invariant ntc == After(size, old(ntc), i) && Statuses(msgs, d0, size, old(ntc))
        invariant Rest(d0, desc[..], size, old(ntc), i) && Cleared(desc[..], size, old(ntc), i)
        invariant !force ==> forall k :: 0 <= k < i ==>
          After(size, old(ntc), k) < size && d0[After(size, old(ntc), k)].flags.dd
        invariant !force && old(Synced()) ==> Synced() && done == old(done) - i
      {
        Oldest();
        RestHere(d0, desc[..], size, old(ntc), i);
        if !force && Synced() {
          SyncedHere();
        }
        if !force && !desc[ntc].flags.dd {
          break;
        }
        if txMsg[ntc] == null {
          break;
        }
        var m := txMsg[ntc];
        ghost var was := desc[..];
        TakeNext(m, msgs, d0, old(ntc));
        assert old(outstanding)[..i + 1] == old(outstanding)[..i] + [m];
        RestStep(d0, was, size, old(ntc), i, ZEROED);
        ClearedStep(was, size, old(ntc), i);
        msgs := msgs + [m];
        i := i + 1;
        Oldest();
      }
      if !force && Synced() {
        SyncedHere();
      }
    }

    /** The statuses of the messages and what has become of the slots, by their numbers. */
    lemma CleanMeans(msgs: seq<Msg>, d0: seq<Desc>, d: seq<Desc>, from: nat)
      requires Statuses(msgs, d0, size, from) && Cleared(d, size, from, |msgs|) && Rest(d0, d, size, from, |msgs|)
      ensures forall k :: 0 <= k < |msgs| && msgs[k] !in msgs[k + 1..] ==>
        msgs[k].status == d0[After(size, from, k)].ret % 256
      ensures forall i :: 0 <= i < size ==>
        d[i] == if Ahead(size, from, i) < |msgs|
                then Desc(Flags(false, false, 0, false, false, 0), 0, 0, 0, 0, 0, Params(0, 0, 0, 0)) else d0[i]
    {
      ClearedMeans(d0, d, size, from, |msgs|);
    }

    /** __idpf_ctlq_clean_sq(): the messages come back in the order they were queued, each with the low byte of the
        return value of its descriptor (unless it was queued once more), and their descriptors are zeroed. */
    method Clean(count: nat, force: bool) returns (r: Status, msgs: seq<Msg>)
      requires Valid()
      modifies this`ntc, this`outstanding, this`returned, this`posted, this`done, desc, txMsg
      modifies (set m | m in outstanding)`status
      ensures Valid() && |msgs| <= |old(outstanding)| && |msgs| <= count
      ensures r == (if count > size then BadRequest else Success) && (r == BadRequest ==> msgs == [])
      ensures msgs == old(outstanding)[..|msgs|] && outstanding == old(outstanding)[|msgs|..]
      ensures returned == old(returned) + msgs && |old(desc[..])| == size && old(ntc) < size
      ensures forall k :: 0 <= k < |msgs| && msgs[k] !in msgs[k + 1..] ==>
        msgs[k].status == old(desc[..])[After(size, old(ntc), k)].ret % 256
      ensures desc.Length == size && ntc == After(size, old(ntc), |msgs|)
      ensures forall i :: 0 <= i < size ==>
        desc[i] == if Ahead(size, old(ntc), i) < |msgs|
                   then Desc(Flags(false, false, 0, false, false, 0), 0, 0, 0, 0, 0, Params(0, 0, 0, 0))
                   else old(desc[..])[i]
      ensures r == Success && |msgs| < count && |msgs| < |old(outstanding)| ==>
        !force && !old(desc[..])[After(size, old(ntc), |msgs|)].flags.dd
      ensures !force ==> forall k :: 0 <= k < |msgs| ==> old(desc[..])[After(size, old(ntc), k)].flags.dd
      ensures !force && old(Synced()) ==> Synced() && done == old(done) - |msgs|
      ensures r == Success && !force && old(Synced()) ==> |msgs| == if count < old(done) then count else old(done)
    {
      hide Valid, Synced, Statuses, Cleared, Rest, After, Ahead;
      Oldest();
      r, msgs := CleanChecked(count, force);
      Oldest();
      CleanMeans(msgs, old(desc[..]), desc[..], old(ntc));
    }

    /** The checks of __idpf_ctlq_clean_sq() and what follows them. */
    method CleanChecked(count: nat, force: bool) returns (r: Status, msgs: seq<Msg>)
      requires Valid()
      modifies this`ntc, this`outstanding, this`returned, this`posted, this`done, desc, txMsg
      modifies (set m | m in outstanding)`status
      ensures Valid() && |msgs| <= |old(outstanding)| && |msgs| <= count
      ensures r == (if count > size then BadRequest else Success) && (r == BadRequest ==> msgs == [])
      ensures msgs == old(outstanding)[..|msgs|] && outstanding == old(outstanding)[|msgs|..]
      ensures returned == old(returned) + msgs && Statuses(msgs, old(desc[..]), size, old(ntc))
      ensures ntc == After(size, old(ntc), |msgs|) && Cleared(desc[..], size, old(ntc), |msgs|)
      ensures Rest(old(desc[..]), desc[..], size, old(ntc), |msgs|)
      ensures r == Success && |msgs| < count && |msgs| < |old(outstanding)| ==>
        !force && !old(desc[..])[After(size, old(ntc), |msgs|)].flags.dd
      ensures !force ==> forall k :: 0 <= k < |msgs| ==> old(desc[..])[After(size, old(ntc), k)].flags.dd
      ensures !force && old(Synced()) ==> Synced() && done == old(done) - |msgs|
      ensures r == Success && !force && old(Synced()) ==> |msgs| == if count < old(done) then count else old(done)
    {
      hide Synced, Statuses, Cleared, Rest;
      Oldest();
      StatusesNone(desc[..], size, ntc);
      ClearedNone(desc[..], size, ntc);
      RestAll(desc[..], size, ntc);
      if count == 0 {
        return Success, [];
      }
      if count > size {
        return BadRequest, [];
      }
      msgs := CleanLoop(count, force);
      return Success, msgs;
    }
  }
}
