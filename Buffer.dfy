/**
 * The per-output ring buffer of buffer.c: `nitems` slots of `it_size` bytes,
 * a parallel array of length tags, a producer index and a consumer index.
 *
 * The queue is empty when (cons_pos+1) % nitems == prod_pos and full when
 * (prod_pos+1) % nitems == cons_pos. Neither the slot at prod_pos (the next one
 * written) nor the slot at cons_pos (the chunk the consumer is writing out)
 * holds a queued item, so at most nitems - 2 items are ever queued.
 */
module Buffer {
  import opened Common

  /** What a slot holds as the consumer sees it: a payload, or the end-of-data tag. */
  datatype Item = Chunk(bytes: seq<Byte>) | EndOfData

  /** The most items a queue holds at once. */
  const Capacity: int := WriteBufferBlockCount - 2

  /** The item that buffer_insert(buf, data, ndata) stores: any negative length is the end tag. */
  function ItemOf(data: seq<Byte>, ndata: int): Item
    requires ndata <= |data|
  {
    if ndata >= 0 then Chunk(data[..ndata]) else EndOfData
  }

  /** The length buffer_after_delete reports for an item. */
  function LengthTag(it: Item): int
  {
    match it
    case Chunk(b) => |b|
    case EndOfData => BufEndData
  }

  /** Abstract insert: a full queue drops the new item, anything else appends it. */
  function Enqueue(q: seq<Item>, it: Item): seq<Item>
  {
    if |q| < Capacity then q + [it] else q
  }

  /** The queue after a run of inserts, and the code each insert returned (0 or -1). */
  function EnqueueAll(q: seq<Item>, items: seq<Item>): (seq<Item>, seq<int>)
    decreases |items|
  {
    if items == [] then (q, [])
    else
      var code := if |q| < Capacity then 0 else -1;
      var rest := EnqueueAll(Enqueue(q, items[0]), items[1..]);
      (rest.0, [code] + rest.1)
  }

  /**
   * Capacity and order: from a queue of at most Capacity items, a run of inserts
   * keeps exactly the first Capacity - |q| new items, in order, and the i-th insert
   * succeeds exactly when fewer than Capacity items were queued before it.
   */
  lemma {:induction false} EnqueueAllKeepsPrefix(q: seq<Item>, items: seq<Item>)
    requires |q| <= Capacity
    ensures var n := if |q| + |items| <= Capacity then |q| + |items| else Capacity;
      EnqueueAll(q, items).0 == (q + items)[..n]
    ensures |EnqueueAll(q, items).1| == |items|
    ensures forall i :: 0 <= i < |items| ==>
      (EnqueueAll(q, items).1[i] == 0 <==> |q| + i < Capacity) &&
      (EnqueueAll(q, items).1[i] == -1 <==> |q| + i >= Capacity)
    decreases |items|
  {
    if items != [] {
      var q' := Enqueue(q, items[0]);
      EnqueueAllKeepsPrefix(q', items[1..]);
      var codes := EnqueueAll(q, items).1;
      var rest := EnqueueAll(q', items[1..]).1;
      assert codes == [if |q| < Capacity then 0 else -1] + rest;
      if |q| < Capacity {
        assert q' == q + [items[0]];
        assert q' + items[1..] == q + items;
      } else {
        assert q' == q;
        assert (q + items)[..Capacity] == q;
        assert (q' + items[1..])[..Capacity] == q;
      }
      forall i | 1 <= i < |items|
        ensures codes[i] == rest[i - 1]
      {
      }
    } else {
      assert (q + items)[..|q|] == q;
    }
  }

  /** A queue that starts empty accepts exactly Capacity items, the first ones inserted. */
  lemma CapacityFromEmpty(items: seq<Item>)
    ensures |items| <= Capacity ==> EnqueueAll([], items).0 == items
    ensures |items| > Capacity ==> EnqueueAll([], items).0 == items[..Capacity]
    ensures |EnqueueAll([], items).1| == |items|
    ensures forall i :: 0 <= i < |items| ==> (EnqueueAll([], items).1[i] == 0 <==> i < Capacity)
  {
    EnqueueAllKeepsPrefix([], items);
    assert [] + items == items;
  }

  /** Number of queued items for producer index p and consumer index c (0 .. nitems-2). */
  function Count(p: int, c: int): int
  {
    if p > c then p - c - 1 else p - c - 1 + WriteBufferBlockCount
  }

  /** The slot holding the k-th queued item after consumer index c. */
  function Slot(c: int, k: int): int
  {
    if c + 1 + k < WriteBufferBlockCount then c + 1 + k else c + 1 + k - WriteBufferBlockCount
  }

  /** The source's empty and full tests on the two indices, in terms of Count. */
  lemma EmptyFullTests(p: int, c: int)
    requires 0 <= p < WriteBufferBlockCount && 0 <= c < WriteBufferBlockCount && p != c
    ensures (c + 1) % WriteBufferBlockCount == p <==> Count(p, c) == 0
    ensures (p + 1) % WriteBufferBlockCount == c <==> Count(p, c) == Capacity
    ensures 0 <= Count(p, c) <= Capacity
  {
  }

  /** Slot lengths are the end tag or a payload length that fits a slot. */
  ghost predicate LengthsOk(ls: seq<int>)
  {
    forall s :: 0 <= s < |ls| ==> ls[s] == BufEndData || 0 <= ls[s] <= WriteBufferBlockSize
  }

  /** The item slot s holds, given the byte array bs and the length tags ls. */
  ghost function SlotItem(bs: seq<Byte>, ls: seq<int>, s: int): Item
    requires 0 <= s < |ls| && |bs| == |ls| * WriteBufferBlockSize
    requires ls[s] <= WriteBufferBlockSize
  {
    if ls[s] < 0 then EndOfData
    else Chunk(bs[s * WriteBufferBlockSize .. s * WriteBufferBlockSize + ls[s]])
  }

  /** A slot's item depends only on its own length tag and its own bytes. */
  lemma SlotItemFrame(bs: seq<Byte>, ls: seq<int>, bs': seq<Byte>, ls': seq<int>, s: int)
    requires 0 <= s < |ls| == |ls'| && |bs| == |bs'| == |ls| * WriteBufferBlockSize
    requires ls[s] <= WriteBufferBlockSize && ls'[s] == ls[s]
    requires forall i :: s * WriteBufferBlockSize <= i < s * WriteBufferBlockSize + WriteBufferBlockSize ==> bs'[i] == bs[i]
    ensures SlotItem(bs', ls', s) == SlotItem(bs, ls, s)
  {
    if ls[s] >= 0 {
      var lo := s * WriteBufferBlockSize;
      assert bs'[lo .. lo + ls[s]] == bs[lo .. lo + ls[s]];
    }
  }

  /**
   * The ring-buffer invariant on plain sequences: bytes bs, length tags ls,
   * producer index p and consumer index c hold exactly the queued items q.
   */
  ghost predicate Abstracts(bs: seq<Byte>, ls: seq<int>, p: int, c: int, q: seq<Item>)
  {
    && |ls| == WriteBufferBlockCount && |bs| == WriteBufferBlockCount * WriteBufferBlockSize
    && 0 <= p < WriteBufferBlockCount && 0 <= c < WriteBufferBlockCount && p != c
    && LengthsOk(ls)
    && |q| == Count(p, c)
    && (forall k :: 0 <= k < |q| ==> q[k] == SlotItem(bs, ls, Slot(c, k)))
  }

  /**
   * Writing item `it` into the producer's slot p (and nowhere else) and advancing p
   * appends `it` to the queue and leaves the consumer's slot as it was.
   */
  lemma InsertAppends(bs: seq<Byte>, ls: seq<int>, bs': seq<Byte>, ls': seq<int>, p: int, c: int, q: seq<Item>, it: Item)
    requires Abstracts(bs, ls, p, c, q) && |q| < Capacity
    requires |bs'| == |bs| && |ls'| == |ls| && LengthsOk(ls')
    requires forall s :: 0 <= s < |ls| && s != p ==> ls'[s] == ls[s]
    requires forall i :: 0 <= i < |bs| && !(p * WriteBufferBlockSize <= i < p * WriteBufferBlockSize + WriteBufferBlockSize) ==>
      bs'[i] == bs[i]
    requires SlotItem(bs', ls', p) == it
    ensures Abstracts(bs', ls', (p + 1) % WriteBufferBlockCount, c, q + [it])
    ensures SlotItem(bs', ls', c) == SlotItem(bs, ls, c)
  {
    var q' := q + [it];
    var p' := (p + 1) % WriteBufferBlockCount;
    assert Slot(c, |q|) == p;
    forall k | 0 <= k < |q'|
      ensures q'[k] == SlotItem(bs', ls', Slot(c, k))
    {
      if k < |q| {
        SlotItemFrame(bs, ls, bs', ls', Slot(c, k));
      }
    }
    SlotItemFrame(bs, ls, bs', ls', c);
  }

  /** Advancing the consumer index past the oldest item removes it from the queue. */
  lemma DeleteRemoves(bs: seq<Byte>, ls: seq<int>, p: int, c: int, q: seq<Item>)
    requires Abstracts(bs, ls, p, c, q) && |q| > 0
    ensures Abstracts(bs, ls, p, (c + 1) % WriteBufferBlockCount, q[1..])
    ensures SlotItem(bs, ls, (c + 1) % WriteBufferBlockCount) == q[0]
  {
    var c' := (c + 1) % WriteBufferBlockCount;
    assert Slot(c, 0) == c';
    forall k | 0 <= k < |q| - 1
      ensures q[1..][k] == SlotItem(bs, ls, Slot(c', k))
    {
      assert Slot(c', k) == Slot(c, k + 1);
    }
  }

  /** memcpy(dst + lo, src, n). */
  method Memcpy(dst: array<Byte>, lo: int, src: seq<Byte>, n: int)
    requires 0 <= lo && 0 <= n <= |src| && lo + n <= dst.Length
    modifies dst
    ensures dst[lo .. lo + n] == src[..n]
    ensures forall i :: 0 <= i < dst.Length && !(lo <= i < lo + n) ==> dst[i] == old(dst[i])
  {
    forall i | 0 <= i < n {
      dst[lo + i] := src[i];
    }
  }

  /** struct buffer, with the queued items as a ghost sequence. */
  class OutputBuffer {
    const nitems: int := WriteBufferBlockCount
    const itSize: int := WriteBufferBlockSize
    const buffer: array<Byte>
    const datalens: array<int>
    var prodPos: int
    var consPos: int

    /** The queued items, oldest first. */
    ghost var Contents: seq<Item>

    ghost function Repr(): set<object>
    {
      {this, buffer, datalens}
    }

    ghost predicate Valid()
      reads this, buffer, datalens
    {
      && buffer.Length == WriteBufferBlockCount * WriteBufferBlockSize
      && datalens.Length == WriteBufferBlockCount
      && Abstracts(buffer[..], datalens[..], prodPos, consPos, Contents)
    }

    /** The item in the consumer's slot: the one the last buffer_after_delete reported. */
    ghost function Current(): Item
      reads this, buffer, datalens
      requires Valid()
    {
      SlotItem(buffer[..], datalens[..], consPos)
    }

    /** One buffer as create_buffers initialises it: empty, prod_pos 0, cons_pos nitems-1. */
    constructor ()
      ensures Valid() && fresh(buffer) && fresh(datalens)
      ensures nitems == 128 && itSize == 1024
      ensures prodPos == 0 && consPos == nitems - 1
      ensures Contents == []
    {
      buffer := new Byte[WriteBufferBlockCount * WriteBufferBlockSize];
      datalens := new int[WriteBufferBlockCount](_ => 0);
      prodPos := 0;
      consPos := WriteBufferBlockCount - 1;
      Contents := [];
    }

    /**
     * buffer_insert: a full queue drops the item and returns -1 without touching
     * anything; otherwise the payload (or the end tag, for a negative length) goes
     * into the producer's slot, prod_pos advances and 0 is returned. `wake` is the
     * broadcast to a waiting consumer, sent when the queue was empty before.
     */
    method Insert(data: seq<Byte>, ndata: int) returns (r: int, wake: bool)
      requires Valid()
      requires ndata <= itSize && ndata <= |data|
      modifies this, buffer, datalens
      ensures Valid()
      ensures r == 0 || r == -1
      ensures r == 0 <==> |old(Contents)| < Capacity
      ensures Contents == Enqueue(old(Contents), ItemOf(data, ndata))
      ensures wake <==> r == 0 && old(Contents) == []
      ensures r == -1 ==> unchanged(this, buffer, datalens)
      ensures r == 0 ==> prodPos == (old(prodPos) + 1) % nitems && consPos == old(consPos)
      ensures r == 0 ==> datalens[old(prodPos)] == (if ndata >= 0 then ndata else BufEndData)
      ensures forall s :: 0 <= s < datalens.Length && s != old(prodPos) ==> datalens[s] == old(datalens[s])
      ensures forall i :: 0 <= i < buffer.Length && !(old(prodPos) * WriteBufferBlockSize <= i < old(prodPos) * WriteBufferBlockSize + ndata) ==>
        buffer[i] == old(buffer[i])
      ensures r == 0 && ndata >= 0 ==> buffer[old(prodPos) * WriteBufferBlockSize .. old(prodPos) * WriteBufferBlockSize + ndata] == data[..ndata]
      ensures r == 0 && ndata < 0 ==> buffer[..] == old(buffer[..])
      ensures Current() == old(Current())
    {
      EmptyFullTests(prodPos, consPos);
      if (prodPos + 1) % nitems == consPos {
        r, wake := -1, false;
        return;
      }
      wake := InsertNonFull(data, ndata);
      r := 0;
    }

    /** The part of buffer_insert after the full test. */
    method InsertNonFull(data: seq<Byte>, ndata: int) returns (wake: bool)
      requires Valid() && |Contents| < Capacity
      requires ndata <= itSize && ndata <= |data|
      modifies this, buffer, datalens
      ensures Valid()
      ensures Contents == old(Contents) + [ItemOf(data, ndata)]
      ensures wake <==> old(Contents) == []
      ensures prodPos == (old(prodPos) + 1) % nitems && consPos == old(consPos)
      ensures datalens[..] == old(datalens[..])[old(prodPos) := if ndata >= 0 then ndata else BufEndData]
      ensures forall i :: 0 <= i < buffer.Length && !(old(prodPos) * WriteBufferBlockSize <= i < old(prodPos) * WriteBufferBlockSize + ndata) ==>
        buffer[i] == old(buffer[i])
      ensures ndata >= 0 ==> buffer[old(prodPos) * WriteBufferBlockSize .. old(prodPos) * WriteBufferBlockSize + ndata] == data[..ndata]
      ensures ndata < 0 ==> buffer[..] == old(buffer[..])
      ensures Current() == old(Current())
    {
      EmptyFullTests(prodPos, consPos);
      ghost var bs, ls := buffer[..], datalens[..];
      var p := prodPos;
      StoreSlot(p, data, ndata);
      wake := (consPos + 1) % nitems == prodPos;
      prodPos := (prodPos + 1) % nitems;
      InsertAppends(bs, ls, buffer[..], datalens[..], p, consPos, Contents, ItemOf(data, ndata));
      Contents := Contents + [ItemOf(data, ndata)];
    }

    /** The slot write of buffer_insert: the payload and its length, or the end tag. */
    method StoreSlot(p: int, data: seq<Byte>, ndata: int)
      requires buffer.Length == WriteBufferBlockCount * WriteBufferBlockSize
      requires datalens.Length == WriteBufferBlockCount && LengthsOk(datalens[..])
      requires 0 <= p < WriteBufferBlockCount && ndata <= WriteBufferBlockSize && ndata <= |data|
      modifies buffer, datalens
      ensures LengthsOk(datalens[..])
      ensures datalens[..] == old(datalens[..])[p := if ndata >= 0 then ndata else BufEndData]
      ensures forall i :: 0 <= i < buffer.Length && !(p * WriteBufferBlockSize <= i < p * WriteBufferBlockSize + ndata) ==>
        buffer[i] == old(buffer[i])
      ensures ndata >= 0 ==> buffer[p * WriteBufferBlockSize .. p * WriteBufferBlockSize + ndata] == data[..ndata]
      ensures ndata < 0 ==> buffer[..] == old(buffer[..])
      ensures SlotItem(buffer[..], datalens[..], p) == ItemOf(data, ndata)
    {
      if ndata >= 0 {
        Memcpy(buffer, p * WriteBufferBlockSize, data, ndata);
        datalens[p] := ndata;
        assert buffer[..][p * WriteBufferBlockSize .. p * WriteBufferBlockSize + ndata] == data[..ndata];
      } else {
        datalens[p] := -1;
      }
    }

    /**
     * buffer_after_delete on a non-empty queue (the source waits for an insert
     * when the queue is empty): cons_pos advances to the oldest item's slot, the
     * item leaves the queue and its length tag is returned.
     */
    method AfterDelete() returns (n: int)
      requires Valid() && |Contents| > 0
      modifies this
      ensures Valid()
      ensures Contents == old(Contents)[1..]
      ensures Current() == old(Contents)[0]
      ensures n == LengthTag(old(Contents)[0])
      ensures consPos == (old(consPos) + 1) % nitems && prodPos == old(prodPos)
    {
      EmptyFullTests(prodPos, consPos);
      DeleteRemoves(buffer[..], datalens[..], prodPos, consPos, Contents);
      consPos := (consPos + 1) % nitems;
      n := datalens[consPos];
      Contents := Contents[1..];
    }

    /**
     * buffer_cons_data_pointer: the offset of the consumer's slot. Its first
     * LengthTag(Current()) bytes are the payload buffer_after_delete reported.
     */
    function ConsDataPointer(): (off: int)
      reads this, buffer, datalens
      requires Valid()
      ensures 0 <= off && off + itSize <= buffer.Length
      ensures Current().Chunk? ==> buffer[off .. off + |Current().bytes|] == Current().bytes
    {
      consPos * itSize
    }

    /** The emptiness test buffer_after_delete makes before it waits for a producer. */
    predicate IsEmpty()
      reads this, buffer, datalens
      requires Valid()
      ensures IsEmpty() <==> Contents == []
    {
      EmptyFullTests(prodPos, consPos);
      (consPos + 1) % nitems == prodPos
    }
  }

  /** Two buffers share no memory. */
  ghost predicate Disjoint(bufs: seq<OutputBuffer>)
  {
    forall i, j :: 0 <= i < |bufs| && 0 <= j < |bufs| && i != j ==> bufs[i].Repr() !! bufs[j].Repr()
  }

  /** create_buffers: n separate, empty buffers. */
  method CreateBuffers(n: nat) returns (bufs: seq<OutputBuffer>)
    ensures |bufs| == n && Disjoint(bufs)
    ensures forall i :: 0 <= i < n ==> bufs[i].Valid() && bufs[i].Contents == [] && fresh(bufs[i].Repr())
    ensures forall i :: 0 <= i < n ==> bufs[i].prodPos == 0 && bufs[i].consPos == bufs[i].nitems - 1
  {
    bufs := [];
    while |bufs| < n
      invariant |bufs| <= n && Disjoint(bufs)
      invariant forall i :: 0 <= i < |bufs| ==> bufs[i].Valid() && bufs[i].Contents == [] && fresh(bufs[i].Repr())
      invariant forall i :: 0 <= i < |bufs| ==> bufs[i].prodPos == 0 && bufs[i].consPos == bufs[i].nitems - 1
    {
      var b := new OutputBuffer();
      bufs := bufs + [b];
    }
  }
}
