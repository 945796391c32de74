/**
 What posting does to the free part of a receive ring, as a function on the slots in ring order.
 */
module RxWindows {
  import opened CtlqRings
  import opened Numbers

  /** A DMA buffer. */
  class Dma {
    const size: bv16
    const high: nat
    const low: nat

    constructor (size: bv16, high: nat, low: nat)
      ensures this.size == size && this.high == high && this.low == low
    {
      this.size, this.high, this.low := size, high, low;
    }
  }

  /** The first slot that holds a buffer. */
  function FirstUsed(w: seq<Dma?>): (j: nat)
    ensures j <= |w| && (j < |w| ==> w[j] != null) && forall k :: 0 <= k < j ==> w[k] == null
  {
    if w == [] || w[0] != null then 0 else FirstUsed(w[1..]) + 1
  }

  /** The first buffer of the slots moved to the first slot. */
  function Pull(w: seq<Dma?>): (r: seq<Dma?>)
    ensures |r| == |w|
  {
    var j := FirstUsed(w);
    if j == |w| then w else w[j := null][0 := w[j]]
  }

  /** The free slots after a post: each is filled from itself, from the caller, or from further along the ring. */
  function Fill(w: seq<Dma?>, bs: seq<Dma>): (r: seq<Dma?>)
    ensures |r| == |w|
    decreases |w|
  {
    if w == [] then []
    else if w[0] != null then [w[0]] + Fill(w[1..], bs)
    else if bs != [] then [bs[0]] + Fill(w[1..], bs[1..])
    else if FirstUsed(w) == |w| then w
    else [Pull(w)[0]] + Fill(Pull(w)[1..], [])
  }

  /** How many buffers there are in these slots. */
  function Count(w: seq<Dma?>): (n: nat)
    ensures n <= |w|
  {
    if w == [] then 0 else Count(w[1..]) + if w[0] == null then 0 else 1
  }

  /** The buffer of one slot, if there is one. */
  ghost function One(x: Dma?): multiset<Dma?>
  {
    if x == null then multiset{} else multiset{x}
  }

  /** The buffers in these slots, as often as they are there. */
  ghost function Bufs(w: seq<Dma?>): multiset<Dma?>
  {
    if w == [] then multiset{} else Bufs(w[1..]) + One(w[0])
  }

  /** They are the buffers of the slots, each as often as it occurs. */
  lemma {:induction false} BufsExact(w: seq<Dma?>, b: Dma?)
    ensures Bufs(w)[b] == if b == null then 0 else multiset(w)[b]
  {
    if w != [] {
      BufsExact(w[1..], b);
      assert w == [w[0]] + w[1..];
      assert multiset(w) == multiset{w[0]} + multiset(w[1..]);
    }
  }

  /** How many of the caller's buffers are taken. */
  function Taken(w: seq<Dma?>, bs: seq<Dma>): (n: nat)
    ensures n <= |bs|
    decreases |w|
  {
    if w == [] || bs == [] then 0
    else if w[0] != null then Taken(w[1..], bs)
    else Taken(w[1..], bs[1..]) + 1
  }

  lemma {:induction false} CountUpdate(w: seq<Dma?>, j: nat, x: Dma?)
    requires j < |w|
    ensures Count(w[j := x]) + (if w[j] == null then 0 else 1) == Count(w) + if x == null then 0 else 1
  {
    if j == 0 {
      assert w[j := x][1..] == w[1..];
    } else {
      assert w[j := x][1..] == w[1..][j - 1 := x];
      CountUpdate(w[1..], j - 1, x);
    }
  }

  lemma AddBoth(a: multiset<Dma?>, b: multiset<Dma?>, x: multiset<Dma?>, y: multiset<Dma?>, z: multiset<Dma?>)
    requires a + y == b + z
    ensures a + x + y == b + x + z
  {
    assert a + x + y == (a + y) + x;
    assert b + x + z == (b + z) + x;
  }

  lemma {:induction false} BufsUpdate(w: seq<Dma?>, j: nat, x: Dma?)
    requires j < |w|
    ensures Bufs(w[j := x]) + One(w[j]) == Bufs(w) + One(x)
  {
    hide One;
    if j == 0 {
      assert w[j := x][1..] == w[1..];
    } else {
      assert w[j := x][1..] == w[1..][j - 1 := x] && w[j := x][0] == w[0] && w[j] == w[1..][j - 1];
      BufsUpdate(w[1..], j - 1, x);
      AddBoth(Bufs(w[1..][j - 1 := x]), Bufs(w[1..]), One(w[0]), One(w[j]), One(x));
    }
  }

  lemma {:induction false} CountNone(w: seq<Dma?>)
    ensures Count(w) == 0 <==> forall k :: 0 <= k < |w| ==> w[k] == null
  {
    if w != [] {
      CountNone(w[1..]);
      assert forall k :: 1 <= k < |w| ==> w[k] == w[1..][k - 1];
      assert forall k :: 0 <= k < |w[1..]| ==> w[1..][k] == w[k + 1];
    }
  }

  lemma NoBuffer()
    ensures One(null) == multiset{}
  {
  }

  /** Taking a buffer out of a slot. */
  lemma BufsTake(w: seq<Dma?>, j: nat)
    requires j < |w|
    ensures Bufs(w) == Bufs(w[j := null]) + One(w[j])
  {
    hide One, Bufs;
    BufsUpdate(w, j, null);
    NoBuffer();
  }

  /** Putting a buffer into a slot. */
  lemma BufsPut(w: seq<Dma?>, j: nat, x: Dma?)
    requires j < |w| && w[j] == null
    ensures Bufs(w[j := x]) == Bufs(w) + One(x)
  {
    hide One, Bufs;
    BufsUpdate(w, j, x);
    NoBuffer();
  }

  lemma PullKeeps(w: seq<Dma?>)
    requires w != [] && w[0] == null
    ensures Count(Pull(w)) == Count(w) && Bufs(Pull(w)) == Bufs(w)
  {
    var j := FirstUsed(w);
    if j < |w| {
      CountUpdate(w, j, null);
      CountUpdate(w[j := null], 0, w[j]);
      PullBufs(w, j);
    }
  }

  lemma PullBufs(w: seq<Dma?>, j: nat)
    requires 0 < j < |w| && w[0] == null
    ensures Bufs(w[j := null][0 := w[j]]) == Bufs(w)
  {
    hide One, Bufs;
    BufsTake(w, j);
    BufsPut(w[j := null], 0, w[j]);
  }

  /** As many slots are filled, from the first on, as there are slots and buffers for. */
  lemma {:induction false} FillExact(w: seq<Dma?>, bs: seq<Dma>, k: nat)
    requires k < |w|
    ensures Fill(w, bs)[k] != null <==> k < Min(|w|, Count(w) + |bs|)
    decreases |w|
  {
    if w[0] != null {
      assert Fill(w, bs) == [w[0]] + Fill(w[1..], bs);
      if k > 0 {
        FillExact(w[1..], bs, k - 1);
      }
    } else if bs == [] {
      FillPulled(w, k);
    } else {
      assert Fill(w, bs) == [bs[0]] + Fill(w[1..], bs[1..]);
      if k > 0 {
        FillExact(w[1..], bs[1..], k - 1);
      }
    }
  }

  lemma {:induction false} FillPulled(w: seq<Dma?>, k: nat)
    requires k < |w| && w[0] == null
    ensures Fill(w, [])[k] != null <==> k < Count(w)
    decreases |w|, 0
  {
    hide Fill, Bufs, Taken;
    CountNone(w);
    if FirstUsed(w) == |w| {
      FillNothing(w, []);
    } else {
      var p := Pull(w);
      PullKeeps(w);
      FillOnce(w, []);
      assert p[0] == w[FirstUsed(w)];
      if k > 0 {
        FillExact(p[1..], [], k - 1);
      }
    }
  }

  /** The count is the number of slots with a buffer. */
  lemma {:induction false} CountExact(w: seq<Dma?>)
    ensures Count(w) == |set k | 0 <= k < |w| && w[k] != null|
  {
    var used := set k | 0 <= k < |w| && w[k] != null;
    if w != [] {
      var rest := w[..|w| - 1];
      CountExact(rest);
      CountLast(w);
      var fewer := set k | 0 <= k < |rest| && rest[k] != null;
      assert used == fewer + if w[|w| - 1] != null then {|w| - 1} else {};
    } else {
      assert used == {};
    }
  }

  lemma {:induction false} CountLast(w: seq<Dma?>)
    requires w != []
    ensures Count(w) == Count(w[..|w| - 1]) + if w[|w| - 1] == null then 0 else 1
  {
    if |w| > 1 {
      CountLast(w[1..]);
      assert w[1..][..|w| - 2] == w[..|w| - 1][1..];
    }
  }

  /** While the caller's buffers last, a slot with a buffer keeps it and the empty slots get them in turn. */
  lemma {:induction false} FillGiven(w: seq<Dma?>, bs: seq<Dma>, k: nat)
    requires k < |w|
    ensures var given := k - Count(w[..k]);
      && (w[k] != null && given <= |bs| ==> Fill(w, bs)[k] == w[k])
      && (w[k] == null && given < |bs| ==> Fill(w, bs)[k] == bs[given])
    decreases k
  {
    if k > 0 {
      assert w[..k][1..] == w[1..][..k - 1];
      if w[0] != null {
        FillGiven(w[1..], bs, k - 1);
      } else if bs != [] {
        FillGiven(w[1..], bs[1..], k - 1);
      }
    }
  }

  /** From where they have run out, the rest is filled from itself. */
  lemma {:induction false} FillRest(w: seq<Dma?>, bs: seq<Dma>, k: nat)
    requires k <= |w| && k - Count(w[..k]) == |bs|
    ensures Fill(w, bs)[k..] == Fill(w[k..], [])
    decreases k
  {
    if k == 0 {
      assert w[0..] == w;
    } else {
      assert w[..k][1..] == w[1..][..k - 1];
      if w[0] != null {
        FillRest(w[1..], bs, k - 1);
        assert Fill(w, bs) == [w[0]] + Fill(w[1..], bs);
      } else {
        assert bs != [];
        FillRest(w[1..], bs[1..], k - 1);
        assert Fill(w, bs) == [bs[0]] + Fill(w[1..], bs[1..]);
      }
    }
  }

  /** The buffers in these slots, in order. */
  function Held(w: seq<Dma?>): (h: seq<Dma?>)
  {
    if w == [] then [] else (if w[0] == null then [] else [w[0]]) + Held(w[1..])
  }

  lemma {:induction false} HeldSkip(w: seq<Dma?>, j: nat)
    requires j <= |w| && forall k :: 0 <= k < j ==> w[k] == null
    ensures Held(w) == Held(w[j..])
  {
    if j == 0 {
      assert w[0..] == w;
    } else {
      HeldSkip(w[1..], j - 1);
      assert w[1..][j - 1..] == w[j..];
    }
  }

  lemma HeldPull(w: seq<Dma?>)
    requires w != [] && w[0] == null && FirstUsed(w) < |w|
    ensures Held(Pull(w)) == Held(w)
  {
    var j, p := FirstUsed(w), Pull(w);
    HeldSkip(w, j);
    HeldSkip(p[1..], j);
    assert p[1..][j..] == w[j..][1..];
  }

  /** Without slots, or without buffers, there is nothing to do. */
  lemma FillNothing(w: seq<Dma?>, bs: seq<Dma>)
    requires w == [] || (bs == [] && FirstUsed(w) == |w|)
    ensures Fill(w, bs) == w && Taken(w, bs) == 0 && (w != [] ==> w[0] == null)
  {
  }

  /** Filling from itself moves the buffers together without changing their order. */
  lemma {:induction false} FillOrder(w: seq<Dma?>)
    ensures Held(Fill(w, [])) == Held(w)
    decreases |w|
  {
    if w != [] {
      if w[0] != null {
        FillOrder(w[1..]);
        assert Fill(w, [])[1..] == Fill(w[1..], []);
      } else if FirstUsed(w) < |w| {
        HeldPull(w);
        FillOrder(Pull(w)[1..]);
        assert Fill(w, [])[1..] == Fill(Pull(w)[1..], []);
      }
    }
  }

  /** All of the caller's buffers are taken, or every slot is full. */
  lemma {:induction false} TakenExact(w: seq<Dma?>, bs: seq<Dma>)
    ensures Taken(w, bs) == Min(|bs|, |w| - Count(w))
    decreases |w|
  {
    if w != [] && bs != [] {
      TakenExact(w[1..], if w[0] == null then bs[1..] else bs);
    }
  }

  /** What is left over is what there is no room for. */
  lemma LeftOver(w: seq<Dma?>, bs: seq<Dma>)
    ensures |bs| - Taken(w, bs) == if Count(w) + |bs| > |w| then Count(w) + |bs| - |w| else 0
  {
    TakenExact(w, bs);
  }

  /** No buffer is lost or duplicated: what is in the slots afterwards is what was there and what has been taken. */
  lemma {:induction false} FillConserves(w: seq<Dma?>, bs: seq<Dma>)
    ensures Bufs(Fill(w, bs)) == Bufs(w) + Bufs(bs[..Taken(w, bs)])
    decreases |w|
  {
    hide One;
    if w != [] {
      if w[0] != null {
        FillConserves(w[1..], bs);
        BufsCons(w[0], Fill(w[1..], bs));
        if bs == [] {
          assert bs[..Taken(w[1..], bs)] == bs[..Taken(w, bs)];
        }
      } else if bs != [] {
        FillConserves(w[1..], bs[1..]);
        BufsCons(bs[0], Fill(w[1..], bs[1..]));
        BufsCons(bs[0], bs[1..][..Taken(w[1..], bs[1..])]);
        assert bs[..Taken(w, bs)] == [bs[0]] + bs[1..][..Taken(w[1..], bs[1..])];
        NoBuffer();
      } else if FirstUsed(w) < |w| {
        var p := Pull(w);
        PullKeeps(w);
        FillConserves(p[1..], []);
        BufsCons(p[0], Fill(p[1..], []));
      }
    }
  }

  lemma BufsCons(x: Dma?, w: seq<Dma?>)
    ensures Bufs([x] + w) == Bufs(w) + One(x)
  {
    assert ([x] + w)[1..] == w;
  }

  lemma Regroup(a: seq<Dma?>, x: Dma?, f: seq<Dma?>)
    ensures a + ([x] + f) == (a + [x]) + f
  {
  }

  lemma FillOnce(w: seq<Dma?>, bs: seq<Dma>)
    requires w != []
    ensures w[0] != null ==> Fill(w, bs) == [w[0]] + Fill(w[1..], bs) && Taken(w, bs) == Taken(w[1..], bs)
    ensures w[0] == null && bs != [] ==>
      Fill(w, bs) == [bs[0]] + Fill(w[1..], bs[1..]) && Taken(w, bs) == 1 + Taken(w[1..], bs[1..])
    ensures w[0] == null && bs == [] && FirstUsed(w) < |w| ==> Fill(w, bs) == [Pull(w)[0]] + Fill(Pull(w)[1..], [])
  {
  }

  /** Passing a slot that has a buffer. */
  lemma PassUsed(w: seq<Dma?>, bs: seq<Dma>, k: nat)
    requires k < |w| && w[k] != null
    ensures w[..k] + Fill(w[k..], bs) == w[..k + 1] + Fill(w[k + 1..], bs) && Taken(w[k..], bs) == Taken(w[k + 1..], bs)
  {
    hide Fill, Taken;
    FillOnce(w[k..], bs);
    assert w[k..][1..] == w[k + 1..] && w[..k + 1] == w[..k] + [w[k]];
    Regroup(w[..k], w[k], Fill(w[k + 1..], bs));
  }

  /** Filling a slot from the caller's buffers. */
  lemma PassGiven(w: seq<Dma?>, bs: seq<Dma>, k: nat)
    requires k < |w| && w[k] == null && bs != []
    ensures var w' := w[k := bs[0]];
      && w'[..k + 1] == w[..k] + [bs[0]]
      && w[..k] + Fill(w[k..], bs) == w'[..k + 1] + Fill(w'[k + 1..], bs[1..])
      && Taken(w[k..], bs) == 1 + Taken(w'[k + 1..], bs[1..])
  {
    hide Fill, Taken;
    var w' := w[k := bs[0]];
    FillOnce(w[k..], bs);
    assert w[k..][1..] == w'[k + 1..] && w'[..k + 1] == w[..k] + [bs[0]];
    Regroup(w[..k], bs[0], Fill(w'[k + 1..], bs[1..]));
  }

  lemma PullRest(w: seq<Dma?>, k: nat, j: nat)
    requires k + j < |w| && 0 < j == FirstUsed(w[k..]) && w[k] == null
    ensures w[k + j] != null
    ensures var w' := w[k + j := null][k := w[k + j]];
      Pull(w[k..])[0] == w[k + j] && Pull(w[k..])[1..] == w'[k + 1..] && w'[..k + 1] == w[..k] + [w[k + j]]
  {
    var w', rest := w[k + j := null][k := w[k + j]], w[k..];
    assert rest[j] == w[k + j];
    assert w'[k..] == Pull(rest);
  }

  /** Filling a slot from further along. */
  lemma PassPulled(w: seq<Dma?>, k: nat, j: nat)
    requires k + j < |w| && 0 < j == FirstUsed(w[k..]) && w[k] == null
    ensures w[k + j] != null
    ensures var w' := w[k + j := null][k := w[k + j]];
      && w'[..k + 1] == w[..k] + [w[k + j]]
      && w[..k] + Fill(w[k..], []) == w'[..k + 1] + Fill(w'[k + 1..], [])
      && Taken(w[k..], []) == 0 == Taken(w'[k + 1..], [])
  {
    hide Fill, Pull;
    var w' := w[k + j := null][k := w[k + j]];
    PullRest(w, k, j);
    FillOnce(w[k..], []);
    Regroup(w[..k], w[k + j], Fill(w'[k + 1..], []));
  }
}
