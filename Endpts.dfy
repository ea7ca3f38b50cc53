/**
 * The endpoint drivers of endpts.c: read_endpt fills 1024-byte chunks from the
 * input and inserts each into every output buffer; write_endpt takes chunks out
 * of its own buffer and writes them to its sink. Both run a retry cycle that ends
 * in a decision on the endpoint's `retry` setting.
 *
 * The system calls are oracles. A cycle is given the outcomes of open, getaddrinfo,
 * socket, bind / connect, listen and accept, and a script of read or write results.
 */
module Endpts {
  import opened Common
  import opened Buffer

  // ---------------------------------------------------------------------------
  // Oracles

  /** What one read(2) returns: some bytes, end of file (0), or an error (-1). */
  datatype ReadResult = Bytes(data: seq<Byte>) | Eof | Fail

  /** What one write(2) returns: a count of bytes taken, or an error. */
  datatype WriteResult = Accepted(n: nat) | WriteFail

  /** One address getaddrinfo returned: whether socket() succeeds on it, then bind() (input) or connect() (output). */
  datatype Attempt = Attempt(socketOk: bool, callOk: bool)

  /** The outcomes of the input's set-up calls in one cycle, and the reads that follow. */
  datatype ReaderEnv = ReaderEnv(
    openOk: bool, resolveOk: bool, addrs: seq<Attempt>, listenOk: bool, acceptOk: bool,
    script: seq<ReadResult>)

  /** The outcomes of an output's set-up calls in one cycle. */
  datatype WriterEnv = WriterEnv(openOk: bool, resolveOk: bool, addrs: seq<Attempt>)

  function Cost(r: ReadResult): nat
  {
    match r
    case Bytes(d) => 1 + |d|
    case _ => 1
  }

  /** A measure of what is left in a read script. */
  function ScriptSize(s: seq<ReadResult>): nat
  {
    if s == [] then 0 else Cost(s[0]) + ScriptSize(s[1..])
  }

  /** The bytes the reads deliver before the first end of file or error. */
  function Delivered(s: seq<ReadResult>): seq<Byte>
  {
    if s == [] then []
    else match s[0]
      case Bytes(d) => if d == [] then [] else d + Delivered(s[1..])
      case _ => []
  }

  /** Whether the reads end in an error rather than in end of file. */
  predicate Fails(s: seq<ReadResult>)
  {
    if s == [] then false
    else match s[0]
      case Bytes(d) => d != [] && Fails(s[1..])
      case Fail => true
      case Eof => false
  }

  /**
   * One read of at most `want` bytes. An exhausted script and an empty result read as
   * end of file; a result longer than `want` is split and its tail stays for the next read.
   */
  function ReadCall(s: seq<ReadResult>, want: nat): (r: (ReadResult, seq<ReadResult>))
    requires want > 0
    ensures r.0.Bytes? ==> 0 < |r.0.data| <= want && ScriptSize(r.1) < ScriptSize(s)
    ensures r.0.Bytes? ==> Delivered(s) == r.0.data + Delivered(r.1) && (Fails(s) <==> Fails(r.1))
    ensures r.0.Eof? ==> Delivered(s) == [] && !Fails(s)
    ensures r.0.Fail? ==> Delivered(s) == [] && Fails(s)
  {
    if s == [] then (Eof, [])
    else match s[0]
      case Eof => (Eof, s[1..])
      case Fail => (Fail, s[1..])
      case Bytes(d) =>
        if d == [] then (Eof, s[1..])
        else if |d| <= want then (Bytes(d), s[1..])
        else
          var rest := [Bytes(d[want..])] + s[1..];
          assert rest[1..] == s[1..];
          assert d == d[..want] + d[want..];
          (Bytes(d[..want]), rest)
  }

  /**
   * One write of `want` bytes: the count taken (never more than `want`) or -1, and the
   * rest of the script. An exhausted script takes everything.
   */
  function WriteCall(w: seq<WriteResult>, want: nat): (r: (int, seq<WriteResult>))
    ensures -1 <= r.0 <= want
    ensures w == [] ==> r == (want, [])
    ensures w != [] ==> r.1 == w[1..] && (r.0 == -1 <==> w[0].WriteFail?)
  {
    if w == [] then (want, [])
    else match w[0]
      case WriteFail => (-1, w[1..])
      case Accepted(n) => (if n <= want then n else want, w[1..])
  }

  /** A slice of a slice is a slice of the whole. */
  lemma SubSlice(s: seq<Byte>, lo: int, hi: int, i: int, j: int)
    requires 0 <= lo <= hi <= |s| && 0 <= i <= j <= hi - lo
    ensures s[lo + i .. lo + j] == s[lo..hi][i..j]
  {
    var a, b := s[lo + i .. lo + j], s[lo..hi][i..j];
    assert |a| == |b|;
    forall k | 0 <= k < |a|
      ensures a[k] == b[k]
    {
      assert a[k] == s[lo + i + k];
    }
  }

  // ---------------------------------------------------------------------------
  // The read phase: chunking

  function Flatten(cs: seq<seq<Byte>>): seq<Byte>
  {
    if cs == [] then [] else cs[0] + Flatten(cs[1..])
  }

  /** The chunks one read phase inserts, and the exit status it records (0 at end of file, -1 on error). */
  datatype ReadOutcome = ReadOutcome(chunks: seq<seq<Byte>>, status: int)

  /**
   * The inner loops of read_endpt, from a partly filled read buffer: a full buffer
   * is a chunk and filling starts over; at end of file the partial buffer (possibly
   * empty) is the last chunk; on an error the partial buffer is dropped.
   */
  function ReadPhase(s: seq<ReadResult>, pending: seq<Byte>): ReadOutcome
    requires |pending| < ReadBufferBlockSize
    decreases ScriptSize(s)
  {
    var (res, rest) := ReadCall(s, ReadBufferBlockSize - |pending|);
    match res
    case Eof => ReadOutcome([pending], 0)
    case Fail => ReadOutcome([], -1)
    case Bytes(d) =>
      var p := pending + d;
      if |p| == ReadBufferBlockSize then
        var r := ReadPhase(rest, []);
        ReadOutcome([p] + r.chunks, r.status)
      else ReadPhase(rest, p)
  }

  /**
   * The status of a read phase: 0 at end of file, -1 exactly when the reads end in an
   * error. Every chunk but a last one is exactly 1024 bytes, and after end of file the
   * last chunk is the short one (possibly empty); after an error all chunks are full.
   */
  lemma {:induction false} ReadPhaseShape(s: seq<ReadResult>, pending: seq<Byte>)
    requires |pending| < ReadBufferBlockSize
    ensures var r := ReadPhase(s, pending);
      && (r.status == 0 || r.status == -1)
      && (r.status == -1 <==> Fails(s))
      && (r.status == 0 ==> |r.chunks| > 0 && |r.chunks[|r.chunks| - 1]| < ReadBufferBlockSize)
      && (forall i :: 0 <= i < |r.chunks| && (r.status == -1 || i < |r.chunks| - 1) ==>
            |r.chunks[i]| == ReadBufferBlockSize)
    decreases ScriptSize(s)
  {
    var (res, rest) := ReadCall(s, ReadBufferBlockSize - |pending|);
    if res.Bytes? {
      var p := pending + res.data;
      if |p| == ReadBufferBlockSize {
        ReadPhaseShape(rest, []);
      } else {
        ReadPhaseShape(rest, p);
      }
    }
  }

  /**
   * The content of a read phase: after end of file the chunks put together are
   * exactly the pending bytes and the bytes read; after an error they are a prefix
   * of those, short of them by less than one chunk (the dropped partial chunk).
   */
  lemma {:induction false} ReadPhaseContent(s: seq<ReadResult>, pending: seq<Byte>)
    requires |pending| < ReadBufferBlockSize
    ensures var r := ReadPhase(s, pending);
      && (r.status == 0 ==> Flatten(r.chunks) == pending + Delivered(s))
      && (r.status != 0 ==> (Flatten(r.chunks) <= pending + Delivered(s) &&
            |pending + Delivered(s)| - |Flatten(r.chunks)| < ReadBufferBlockSize))
    decreases ScriptSize(s)
  {
    var (res, rest) := ReadCall(s, ReadBufferBlockSize - |pending|);
    match res
    case Eof =>
      assert Flatten([pending]) == pending + Flatten([]);
    case Fail =>
    case Bytes(d) =>
      var p := pending + d;
      assert pending + Delivered(s) == p + Delivered(rest);
      if |p| == ReadBufferBlockSize {
        ReadPhaseContent(rest, []);
        var r := ReadPhase(rest, []);
        assert ([p] + r.chunks)[1..] == r.chunks;
        assert Flatten([p] + r.chunks) == p + Flatten(r.chunks);
      } else {
        ReadPhaseContent(rest, p);
      }
  }

  /** The chunks as items for the output buffers. */
  function ChunkItems(cs: seq<seq<Byte>>): (items: seq<Item>)
    ensures |items| == |cs| && forall i :: 0 <= i < |cs| ==> items[i] == Chunk(cs[i])
  {
    if cs == [] then [] else [Chunk(cs[0])] + ChunkItems(cs[1..])
  }

  /** The first address on which both calls succeed, as the loop over getaddrinfo's list finds it. */
  function FirstOk(addrs: seq<Attempt>): (r: Option<nat>)
    ensures r.Some? ==> r.value < |addrs| && addrs[r.value].socketOk && addrs[r.value].callOk
    ensures r.Some? ==> forall j :: 0 <= j < r.value ==> !(addrs[j].socketOk && addrs[j].callOk)
    ensures r.None? ==> forall j :: 0 <= j < |addrs| ==> !(addrs[j].socketOk && addrs[j].callOk)
  {
    if addrs == [] then None
    else if addrs[0].socketOk && addrs[0].callOk then Some(0)
    else match FirstOk(addrs[1..])
      case None => None
      case Some(k) => Some(k + 1)
  }

  // ---------------------------------------------------------------------------
  // One cycle of read_endpt, as a specification

  /** How a cycle of a driver ends: retry after a delay, or return. */
  datatype CycleEnd = Continue | Terminate

  /** Whether the input is open after set-up, and whether a listening socket exists afterwards. */
  datatype ReaderSetup = ReaderSetup(ok: bool, listening: bool)

  /**
   * The set-up of read_endpt. A file is opened, standard input needs nothing. A
   * socket that is already listening goes straight to accept; otherwise the first
   * address that takes socket and bind becomes the listener, and it stays the listener
   * even when listen then fails.
   */
  function SetupInput(kind: EndptType, listening: bool, env: ReaderEnv): (r: ReaderSetup)
    requires kind != TInval
    ensures listening ==> r.listening
    ensures kind != TSocket ==> r.listening == listening
  {
    match kind
    case TFile => ReaderSetup(env.openOk, listening)
    case TStd => ReaderSetup(true, listening)
    case TSocket =>
      if listening then ReaderSetup(env.acceptOk, true)
      else if !env.resolveOk || FirstOk(env.addrs).None? then ReaderSetup(false, false)
      else if !env.listenOk then ReaderSetup(false, true)
      else ReaderSetup(env.acceptOk, true)
  }

  /** What one cycle of read_endpt does: the items each output receives, the status, the listener, the end. */
  datatype ReaderCycle = ReaderCycle(items: seq<Item>, status: int, listening: bool, end: CycleEnd)

  function ReaderCycleOf(cfg: EndptCfg, listening: bool, env: ReaderEnv): ReaderCycle
    requires cfg.kind != TInval
  {
    var setup := SetupInput(cfg.kind, listening, env);
    var phase := if setup.ok then ReadPhase(env.script, []) else ReadOutcome([], -1);
    var items := ChunkItems(phase.chunks);
    if cfg.retry == No || cfg.retry == Ignore then
      ReaderCycle(items + [EndOfData], phase.status, setup.listening, Terminate)
    else
      ReaderCycle(items, phase.status, setup.listening, Continue)
  }

  /**
   * The end of a reader cycle. NO and IGNORE end the reader after exactly one end
   * sentinel, as the last item; YES (and KILL, which has no case of its own) retries
   * and inserts no sentinel. The recorded status is never rewritten by the decision.
   */
  lemma ReaderCycleEnd(cfg: EndptCfg, listening: bool, env: ReaderEnv)
    requires cfg.kind != TInval
    ensures var c := ReaderCycleOf(cfg, listening, env);
      && (c.end == Terminate <==> cfg.retry == No || cfg.retry == Ignore)
      && (c.end == Terminate ==> |c.items| > 0 && c.items[|c.items| - 1] == EndOfData)
      && (forall i :: 0 <= i < |c.items| && c.items[i] == EndOfData ==>
            c.end == Terminate && i == |c.items| - 1)
      && (c.status == 0 || c.status == -1)
  {
    ReadPhaseShape(env.script, []);
  }

  /**
   * A failed set-up (open, resolve, bind, listen or accept) records -1 and inserts
   * no data; only the sentinel of a terminating cycle can follow.
   */
  lemma ReaderSetupFailure(cfg: EndptCfg, listening: bool, env: ReaderEnv)
    requires cfg.kind != TInval && !SetupInput(cfg.kind, listening, env).ok
    ensures var c := ReaderCycleOf(cfg, listening, env);
      c.status == -1 && forall i :: 0 <= i < |c.items| ==> c.items[i] == EndOfData
  {
  }

  /**
   * A listening socket is reused: once one exists, the cycle does not depend on the
   * outcomes of getaddrinfo, socket, bind or listen, and the socket is kept.
   */
  lemma ListenerReused(cfg: EndptCfg, env: ReaderEnv, env': ReaderEnv)
    requires cfg.kind == TSocket
    requires env'.acceptOk == env.acceptOk && env'.script == env.script
    ensures ReaderCycleOf(cfg, true, env') == ReaderCycleOf(cfg, true, env)
    ensures ReaderCycleOf(cfg, true, env).listening
  {
  }

  /** A failed listen leaves the bound socket as the listener: the next cycle goes straight to accept. */
  lemma ListenFailureKeepsSocket(cfg: EndptCfg, env: ReaderEnv)
    requires cfg.kind == TSocket && env.resolveOk && FirstOk(env.addrs).Some? && !env.listenOk
    ensures var c := ReaderCycleOf(cfg, false, env);
      c.status == -1 && c.listening
  {
  }

  /**
   * Data integrity of a cycle that reaches end of file: the payloads each output
   * receives, put together in order, are exactly the bytes the reads delivered, and
   * all of them but the last are full 1024-byte chunks.
   */
  lemma ReaderCycleDelivers(cfg: EndptCfg, listening: bool, env: ReaderEnv)
    requires cfg.kind != TInval && SetupInput(cfg.kind, listening, env).ok && !Fails(env.script)
    ensures var c := ReaderCycleOf(cfg, listening, env);
      var cs := ReadPhase(env.script, []).chunks;
      && c.status == 0
      && c.items[..|cs|] == ChunkItems(cs)
      && Flatten(cs) == Delivered(env.script)
  {
    ReadPhaseShape(env.script, []);
    ReadPhaseContent(env.script, []);
  }

  // ---------------------------------------------------------------------------
  // The write phase, as a specification

  /** How far one chunk got: the bytes written, the write results left, and whether all of it went out. */
  datatype WriteOutcome = WriteOutcome(written: nat, rest: seq<WriteResult>, ok: bool)

  /**
   * The inner loop of write_endpt: write what is left of the chunk until all of it
   * has been taken, adding up partial writes; a negative result stops it.
   */
  function WriteOut(bytes: seq<Byte>, w: seq<WriteResult>, done: nat): (r: WriteOutcome)
    requires done <= |bytes|
    ensures done <= r.written <= |bytes|
    ensures r.ok ==> r.written == |bytes|
    ensures !r.ok ==> r.written < |bytes|
    decreases |w|, |bytes| - done
  {
    if done == |bytes| then WriteOutcome(done, w, true)
    else
      var (res, rest) := WriteCall(w, |bytes| - done);
      if res < 0 then WriteOutcome(done, rest, false)
      else WriteOut(bytes, rest, done + res)
  }

  /** A chunk meets no failing write: then all of it goes out, however the writes split it. */
  lemma {:induction false} WriteOutSucceeds(bytes: seq<Byte>, w: seq<WriteResult>, done: nat)
    requires done <= |bytes|
    requires forall i :: 0 <= i < |w| ==> w[i].Accepted?
    ensures WriteOut(bytes, w, done).ok
    decreases |w|, |bytes| - done
  {
    if done < |bytes| {
      var (res, rest) := WriteCall(w, |bytes| - done);
      WriteOutSucceeds(bytes, rest, done + res);
    }
  }

  /** The payload bytes of a run of items, end tags contributing none. */
  function Payload(q: seq<Item>): seq<Byte>
  {
    if q == [] then [] else (if q[0].Chunk? then q[0].bytes else []) + Payload(q[1..])
  }

  /** Why a drain stopped: the queue ran empty (the writer would wait), the end tag, or a write error. */
  datatype DrainEnd = Blocked | EndSeen | WriteError

  /** Items taken, bytes written, why it stopped, and the write results left. */
  datatype Drained = Drained(taken: nat, sent: seq<Byte>, end: DrainEnd, rest: seq<WriteResult>)

  /** The outer loop of write_endpt over the queued items. */
  function DrainOf(q: seq<Item>, w: seq<WriteResult>): (d: Drained)
    ensures d.taken <= |q|
    ensures d.end == Blocked ==> d.taken == |q| && forall i :: 0 <= i < |q| ==> q[i].Chunk?
    ensures d.end != Blocked ==> d.taken > 0
  {
    if q == [] then Drained(0, [], Blocked, w)
    else match q[0]
      case EndOfData => Drained(1, [], EndSeen, w)
      case Chunk(b) =>
        var o := WriteOut(b, w, 0);
        if !o.ok then Drained(1, b[..o.written], WriteError, o.rest)
        else
          var d := DrainOf(q[1..], o.rest);
          assert forall i :: 1 <= i < |q| ==> q[1..][i - 1] == q[i];
          Drained(d.taken + 1, b + d.sent, d.end, d.rest)
  }

  /** A drain whose first item is a chunk written out in full goes on to the rest of the queue. */
  lemma DrainAfterWrite(q: seq<Item>, w: seq<WriteResult>, out: seq<Byte>, rest: seq<WriteResult>)
    requires q != [] && q[0].Chunk?
    requires WriteOut(q[0].bytes, w, 0).ok && rest == WriteOut(q[0].bytes, w, 0).rest
    requires out == q[0].bytes[..WriteOut(q[0].bytes, w, 0).written]
    ensures var d := DrainOf(q[1..], rest); DrainOf(q, w) == Drained(d.taken + 1, out + d.sent, d.end, d.rest)
  {
    assert out == q[0].bytes;
  }

  /** The payload of the first k items is the first item's bytes, then the payload of the next k - 1. */
  lemma PayloadTake(q: seq<Item>, k: nat)
    requires 1 <= k <= |q|
    ensures Payload(q[..k]) == (if q[0].Chunk? then q[0].bytes else []) + Payload(q[1..][..k - 1])
  {
    assert q[..k][1..] == q[1..][..k - 1];
  }

  /**
   * Where a drain stops: every item before the last one taken is a chunk; the last
   * one taken is the end tag when it stops at the end tag, and a chunk on a write error.
   */
  lemma {:induction false} DrainStops(q: seq<Item>, w: seq<WriteResult>)
    ensures var d := DrainOf(q, w);
      && (forall i :: 0 <= i < d.taken - 1 ==> q[i].Chunk?)
      && (d.end == EndSeen ==> q[d.taken - 1] == EndOfData)
      && (d.end == WriteError ==> q[d.taken - 1].Chunk?)
  {
    if q != [] && q[0].Chunk? {
      var o := WriteOut(q[0].bytes, w, 0);
      if o.ok {
        DrainStops(q[1..], o.rest);
      }
    }
  }

  /** Stopping on an empty queue or at the end tag, exactly the payload taken has been written. */
  lemma {:induction false} DrainSendsPayload(q: seq<Item>, w: seq<WriteResult>)
    ensures var d := DrainOf(q, w);
      && (d.end == EndSeen ==> d.sent == Payload(q[..d.taken]))
      && (d.end == Blocked ==> d.sent == Payload(q))
  {
    if q != [] && q[0].Chunk? {
      var o := WriteOut(q[0].bytes, w, 0);
      if o.ok {
        var d := DrainOf(q[1..], o.rest);
        DrainSendsPayload(q[1..], o.rest);
        if d.end == EndSeen {
          PayloadTake(q, d.taken + 1);
        }
      }
    } else if q != [] {
      assert q[..1][1..] == [];
    }
  }

  /**
   * Stopping on a write error, a proper prefix of the payload taken has been written,
   * and it includes every chunk before the failing one.
   */
  lemma {:induction false} DrainErrorSends(q: seq<Item>, w: seq<WriteResult>)
    ensures var d := DrainOf(q, w);
      d.end == WriteError ==> Payload(q[..d.taken - 1]) <= d.sent && d.sent < Payload(q[..d.taken])
  {
    if q != [] && q[0].Chunk? {
      var b := q[0].bytes;
      var o := WriteOut(b, w, 0);
      var d := DrainOf(q, w);
      if !o.ok {
        assert q[..0] == [];
        PayloadTake(q, 1);
        assert b[..o.written] < b;
        assert Payload(q[..1]) == b + [];
      } else {
        var d' := DrainOf(q[1..], o.rest);
        DrainErrorSends(q[1..], o.rest);
        if d'.end == WriteError {
          PayloadTake(q, d'.taken);
          PayloadTake(q, d'.taken + 1);
          PrefixAfter(b, Payload(q[1..][..d'.taken - 1]), d'.sent);
          PrefixAfter(b, d'.sent, Payload(q[1..][..d'.taken]));
        }
      }
    }
  }

  lemma PrefixAfter(a: seq<Byte>, x: seq<Byte>, y: seq<Byte>)
    ensures x <= y ==> a + x <= a + y
    ensures x < y ==> a + x < a + y
  {
    if x <= y {
      assert (a + y)[..|a + x|] == a + x;
    }
  }

  /** The retry decision of write_endpt: NO keeps the status, IGNORE clears it, YES (and KILL) go round again. */
  function WriteRepeat(c: EndptCfg): (CycleEnd, EndptCfg)
  {
    match c.retry
    case No => (Terminate, c)
    case Ignore => (Terminate, c.(exitStatus := 0))
    case _ => (Continue, c)
  }

  /** Whether write_endpt's set-up opens its sink: the file opens, or some address takes socket and connect. */
  function SetupOutput(kind: EndptType, env: WriterEnv): bool
    requires kind != TInval
  {
    match kind
    case TFile => env.openOk
    case TSocket => env.resolveOk && FirstOk(env.addrs).Some?
    case TStd => true
  }

  /**
   * The exit status a writer leaves when it returns: 0 for IGNORE whatever went wrong;
   * for NO, 0 after the end tag and -1 after a failure.
   */
  lemma WriterReturnStatus(c: EndptCfg, status: int)
    requires status == 0 || status == -1
    requires WriteRepeat(c.(exitStatus := status)).0 == Terminate
    ensures c.retry == No || c.retry == Ignore
    ensures WriteRepeat(c.(exitStatus := status)).1.exitStatus == (if c.retry == Ignore then 0 else status)
    ensures WriteRepeat(c.(exitStatus := status)).1.(exitStatus := c.exitStatus) == c
  {
  }

  /** An insert run that fits: the items are appended, in order, one after the other. */
  lemma {:induction false} EnqueueAllSnoc(q: seq<Item>, items: seq<Item>, it: Item)
    ensures EnqueueAll(q, items + [it]).0 == Enqueue(EnqueueAll(q, items).0, it)
    decreases |items|
  {
    if items == [] {
      assert [it][1..] == [];
    } else {
      assert (items + [it])[1..] == items[1..] + [it];
      EnqueueAllSnoc(Enqueue(q, items[0]), items[1..], it);
    }
  }

  /**
   * End to end: a reader cycle that reaches end of file with retry NO fills an empty
   * output buffer with its chunks and the end tag; a writer whose writes all succeed
   * then writes out exactly the bytes the reads delivered and stops at the end tag.
   */
  lemma EndToEnd(cfg: EndptCfg, listening: bool, env: ReaderEnv, w: seq<WriteResult>)
    requires cfg.kind != TInval && cfg.retry == No
    requires SetupInput(cfg.kind, listening, env).ok && !Fails(env.script)
    requires |ReadPhase(env.script, []).chunks| < Capacity
    requires forall i :: 0 <= i < |w| ==> w[i].Accepted?
    ensures var c := ReaderCycleOf(cfg, listening, env);
      var q := EnqueueAll([], c.items).0;
      && q == c.items
      && DrainOf(q, w).end == EndSeen
      && DrainOf(q, w).sent == Delivered(env.script)
  {
    var c := ReaderCycleOf(cfg, listening, env);
    var cs := ReadPhase(env.script, []).chunks;
    ReaderCycleDelivers(cfg, listening, env);
    CapacityFromEmpty(c.items);
    assert c.items == ChunkItems(cs) + [EndOfData];
    DrainChunks(cs, w);
  }

  /** Chunks followed by the end tag, written by writes that all succeed, come out whole. */
  lemma {:induction false} DrainChunks(cs: seq<seq<Byte>>, w: seq<WriteResult>)
    requires forall i :: 0 <= i < |w| ==> w[i].Accepted?
    ensures DrainOf(ChunkItems(cs) + [EndOfData], w).end == EndSeen
    ensures DrainOf(ChunkItems(cs) + [EndOfData], w).sent == Flatten(cs)
  {
    var q := ChunkItems(cs) + [EndOfData];
    if cs != [] {
      WriteOutSucceeds(cs[0], w, 0);
      var o := WriteOut(cs[0], w, 0);
      assert o.rest == [] || o.rest == w[|w| - |o.rest|..] by { WriteOutRest(cs[0], w, 0); }
      assert forall i :: 0 <= i < |o.rest| ==> o.rest[i].Accepted? by { WriteOutRest(cs[0], w, 0); }
      assert q[1..] == ChunkItems(cs[1..]) + [EndOfData];
      DrainChunks(cs[1..], o.rest);
    }
  }

  /** The write results a chunk leaves over are a suffix of those it was given. */
  lemma {:induction false} WriteOutRest(bytes: seq<Byte>, w: seq<WriteResult>, done: nat)
    requires done <= |bytes|
    ensures var r := WriteOut(bytes, w, done); |r.rest| <= |w| && r.rest == w[|w| - |r.rest|..]
    decreases |w|, |bytes| - done
  {
    if done < |bytes| {
      var (res, rest) := WriteCall(w, |bytes| - done);
      if res >= 0 {
        WriteOutRest(bytes, rest, done + res);
        if w != [] {
          assert rest == w[1..];
        }
      }
    }
  }

  // ---------------------------------------------------------------------------
  // The drivers

  /**
   * The loop over getaddrinfo's list in both drivers: the index of the first address
   * on which socket() and then bind() or connect() succeed, or -1 when none does.
   */
  method FirstUsable(addrs: seq<Attempt>) returns (idx: int)
    ensures idx == -1 <==> forall j :: 0 <= j < |addrs| ==> !(addrs[j].socketOk && addrs[j].callOk)
    ensures idx != -1 ==> FirstOk(addrs) == Some(idx)
  {
    for i := 0 to |addrs|
      invariant forall j :: 0 <= j < i ==> !(addrs[j].socketOk && addrs[j].callOk)
    {
      if !addrs[i].socketOk {
        continue;
      }
      if addrs[i].callOk {
        return i;
      }
    }
    return -1;
  }

  /** One read that returns bytes: they join the pending bytes, and a full buffer is a chunk. */
  lemma ReadPhaseBytes(s: seq<ReadResult>, pending: seq<Byte>, d: seq<Byte>, rest: seq<ReadResult>)
    requires |pending| < ReadBufferBlockSize
    requires ReadCall(s, ReadBufferBlockSize - |pending|) == (Bytes(d), rest)
    ensures |pending + d| <= ReadBufferBlockSize && ScriptSize(rest) < ScriptSize(s)
    ensures |pending + d| == ReadBufferBlockSize ==>
      ReadPhase(s, pending) == ReadOutcome([pending + d] + ReadPhase(rest, []).chunks, ReadPhase(rest, []).status)
    ensures |pending + d| < ReadBufferBlockSize ==> ReadPhase(s, pending) == ReadPhase(rest, pending + d)
  {
  }

  /** A prefix followed by the next slice is the longer prefix. */
  lemma PrefixThenSlice(a: seq<Byte>, n: int, before: seq<Byte>, d: seq<Byte>)
    requires 0 <= n && n + |d| <= |a|
    requires a[..n] == before && a[n .. n + |d|] == d
    ensures a[..n + |d|] == before + d
  {
    assert a[..n + |d|] == a[..n] + a[n .. n + |d|];
  }

  /** Why the read buffer stopped filling. */
  datatype FillEnd = Full | AtEof | AtError

  /**
   * The innermost loop of read_endpt: read into the rest of the buffer until it holds
   * 1024 bytes, or a read reports end of file or an error.
   */
  method FillBuffer(readbuf: array<Byte>, s0: seq<ReadResult>) returns (nread: int, stop: FillEnd, s: seq<ReadResult>)
    requires readbuf.Length == ReadBufferBlockSize
    modifies readbuf
    ensures 0 <= nread <= ReadBufferBlockSize
    ensures stop == Full ==> (nread == ReadBufferBlockSize && ScriptSize(s) < ScriptSize(s0) &&
      ReadPhase(s0, []) == ReadOutcome([readbuf[..]] + ReadPhase(s, []).chunks, ReadPhase(s, []).status))
    ensures stop == AtEof ==> ReadPhase(s0, []) == ReadOutcome([readbuf[..nread]], 0)
    ensures stop == AtError ==> ReadPhase(s0, []) == ReadOutcome([], -1)
  {
    nread := 0;
    s := s0;
    ghost var pending: seq<Byte> := [];
    while nread < ReadBufferBlockSize
      invariant 0 <= nread <= ReadBufferBlockSize && readbuf[..nread] == pending
      invariant nread < ReadBufferBlockSize ==> ReadPhase(s0, []) == ReadPhase(s, pending)
      invariant nread == ReadBufferBlockSize ==>
        ReadPhase(s0, []) == ReadOutcome([pending] + ReadPhase(s, []).chunks, ReadPhase(s, []).status)
      invariant ScriptSize(s) <= ScriptSize(s0)
      invariant nread > 0 ==> ScriptSize(s) < ScriptSize(s0)
      decreases ScriptSize(s)
    {
      var (res, rest) := ReadCall(s, ReadBufferBlockSize - nread);
      match res {
        case Eof =>
          return nread, AtEof, s;
        case Fail =>
          return nread, AtError, s;
        case Bytes(d) =>
          ReadPhaseBytes(s, pending, d, rest);
          Memcpy(readbuf, nread, d, |d|);
          PrefixThenSlice(readbuf[..], nread, pending, d);
          nread := nread + |d|;
          s := rest;
          pending := pending + d;
      }
    }
    assert readbuf[..] == readbuf[..nread];
    stop := Full;
  }

  /** read_endpt's state: the input's configuration, whether listenfd is set, and the output buffers. */
  class InputDriver {
    var cfg: EndptCfg
    var listening: bool
    const outs: seq<OutputBuffer>
    ghost const BufRepr: set<object>

    ghost predicate Valid()
      reads this, BufRepr
    {
      && cfg.kind != TInval
      && this !in BufRepr
      && Disjoint(outs)
      && (forall i :: 0 <= i < |outs| ==> outs[i].Repr() <= BufRepr)
      && (forall i :: 0 <= i < |outs| ==> outs[i].Valid())
    }

    /** A reader over a checked input (its type is defined) and separate, valid buffers; listenfd starts at -1. */
    constructor (cfg: EndptCfg, outs: seq<OutputBuffer>)
      requires cfg.kind != TInval && Disjoint(outs)
      requires forall i :: 0 <= i < |outs| ==> outs[i].Valid()
      ensures Valid() && this.cfg == cfg && this.outs == outs && !listening
      ensures BufRepr == set i, o | 0 <= i < |outs| && o in outs[i].Repr() :: o
    {
      this.cfg := cfg;
      this.outs := outs;
      listening := false;
      BufRepr := set i, o | 0 <= i < |outs| && o in outs[i].Repr() :: o;
    }

    /** The items queued in each output buffer, in output order. */
    ghost function Queues(): (qs: seq<seq<Item>>)
      reads this, outs
      ensures |qs| == |outs| && forall i :: 0 <= i < |outs| ==> qs[i] == outs[i].Contents
    {
      seq(|outs|, i requires 0 <= i < |outs| reads outs => outs[i].Contents)
    }

    /** The insert loop of read_endpt: the same item goes into every output buffer, in index order. */
    method FanOut(data: seq<Byte>, ndata: int)
      requires Valid() && ndata <= WriteBufferBlockSize && ndata <= |data|
      modifies BufRepr
      ensures Valid()
      ensures forall i :: 0 <= i < |outs| ==>
        outs[i].Contents == Enqueue(old(outs[i].Contents), ItemOf(data, ndata))
    {
      for i := 0 to |outs|
        invariant Valid()
        invariant forall j :: 0 <= j < i ==>
          outs[j].Contents == Enqueue(old(outs[j].Contents), ItemOf(data, ndata))
        invariant forall j :: i <= j < |outs| ==> outs[j].Contents == old(outs[j].Contents)
      {
        InsertAt(i, data, ndata);
      }
    }

    /** buffer_insert into output i alone: the other buffers keep their items. */
    method InsertAt(i: int, data: seq<Byte>, ndata: int)
      requires Valid() && 0 <= i < |outs| && ndata <= WriteBufferBlockSize && ndata <= |data|
      modifies BufRepr
      ensures Valid()
      ensures outs[i].Contents == Enqueue(old(outs[i].Contents), ItemOf(data, ndata))
      ensures forall j :: 0 <= j < |outs| && j != i ==> outs[j].Contents == old(outs[j].Contents)
    {
      var _, _ := outs[i].Insert(data, ndata);
    }

    /**
     * The set-up part of read_endpt's cycle: open the file, use standard input, or
     * (unless a socket is already listening) resolve, bind and listen, then accept.
     */
    method Setup(env: ReaderEnv) returns (ok: bool)
      requires Valid()
      modifies this
      ensures Valid() && cfg == old(cfg)
      ensures ok == SetupInput(cfg.kind, old(listening), env).ok
      ensures listening == SetupInput(cfg.kind, old(listening), env).listening
    {
      match cfg.kind {
        case TFile =>
          ok := env.openOk;
        case TStd =>
          ok := true;
        case TSocket =>
          if !listening {
            if !env.resolveOk {
              return false;
            }
            var idx := FirstUsable(env.addrs);
            if idx == -1 {
              return false;
            }
            listening := true;
            if !env.listenOk {
              return false;
            }
          }
          ok := env.acceptOk;
      }
    }

    /** Insert one chunk everywhere, extending the run of chunks each buffer has been given. */
    method Deliver(chunk: seq<Byte>, ghost q0: seq<seq<Item>>, ghost done: seq<seq<Byte>>)
      requires Valid() && |chunk| <= WriteBufferBlockSize && |q0| == |outs|
      requires forall i :: 0 <= i < |outs| ==> outs[i].Contents == EnqueueAll(q0[i], ChunkItems(done)).0
      modifies BufRepr
      ensures Valid()
      ensures forall i :: 0 <= i < |outs| ==> outs[i].Contents == EnqueueAll(q0[i], ChunkItems(done + [chunk])).0
    {
      FanOut(chunk, |chunk|);
      assert chunk[..|chunk|] == chunk;
      assert ChunkItems(done + [chunk]) == ChunkItems(done) + [Chunk(chunk)];
      forall i | 0 <= i < |outs|
        ensures outs[i].Contents == EnqueueAll(q0[i], ChunkItems(done + [chunk])).0
      {
        EnqueueAllSnoc(q0[i], ChunkItems(done), Chunk(chunk));
      }
    }

    /**
     * One pass of read_endpt's outer read loop: fill the read buffer, then insert it
     * everywhere unless a read failed. `done` are the chunks inserted so far by the
     * read phase of `script`, of which `s` is what is left to read; `done'` are
     * those once this pass is over.
     */
    method ReadRound(readbuf: array<Byte>, ghost script: seq<ReadResult>, s: seq<ReadResult>,
                     ghost q0: seq<seq<Item>>, ghost done: seq<seq<Byte>>)
      returns (stop: FillEnd, rest: seq<ReadResult>, ghost done': seq<seq<Byte>>)
      requires Valid() && readbuf.Length == ReadBufferBlockSize && readbuf !in BufRepr && |q0| == |outs|
      requires ReadPhase(script, []) == ReadOutcome(done + ReadPhase(s, []).chunks, ReadPhase(s, []).status)
      requires forall i :: 0 <= i < |outs| ==> outs[i].Contents == EnqueueAll(q0[i], ChunkItems(done)).0
      modifies readbuf, BufRepr
      ensures Valid()
      ensures forall i :: 0 <= i < |outs| ==> outs[i].Contents == EnqueueAll(q0[i], ChunkItems(done')).0
      ensures stop == AtError ==> ReadPhase(script, []) == ReadOutcome(done', -1)
      ensures stop == AtEof ==> ReadPhase(script, []) == ReadOutcome(done', 0)
      ensures stop == Full ==> ScriptSize(rest) < ScriptSize(s)
      ensures stop == Full ==>
        ReadPhase(script, []) == ReadOutcome(done' + ReadPhase(rest, []).chunks, ReadPhase(rest, []).status)
    {
      var nread;
      nread, stop, rest := FillBuffer(readbuf, s);
      if stop == AtError {
        assert done + [] == done;
        return stop, rest, done;
      }
      ghost var chunk := readbuf[..nread];
      assert stop == Full ==> chunk == readbuf[..];
      Deliver(readbuf[..nread], q0, done);
      done' := done + [chunk];
      if stop == Full {
        assert done + ([chunk] + ReadPhase(rest, []).chunks) == done' + ReadPhase(rest, []).chunks;
      }
    }

    /**
     * The read loops of read_endpt: fill the read buffer and insert it everywhere,
     * until end of file (the partial buffer is inserted, status 0) or an error
     * (nothing more is inserted, status -1).
     */
    method ReadAll(script: seq<ReadResult>) returns (status: int)
      requires Valid()
      modifies BufRepr
      ensures Valid()
      ensures status == ReadPhase(script, []).status
      ensures forall i :: 0 <= i < |outs| ==>
        outs[i].Contents == EnqueueAll(old(outs[i].Contents), ChunkItems(ReadPhase(script, []).chunks)).0
    {
      ghost var q0 := Queues();
      var readbuf := new Byte[ReadBufferBlockSize];
      var s := script;
      ghost var done: seq<seq<Byte>> := [];
      while true
        invariant Valid() && fresh(readbuf)
        invariant ReadPhase(script, []) == ReadOutcome(done + ReadPhase(s, []).chunks, ReadPhase(s, []).status)
        invariant forall i :: 0 <= i < |outs| ==> outs[i].Contents == EnqueueAll(q0[i], ChunkItems(done)).0
        decreases ScriptSize(s)
      {
        var stop, rest;
        stop, rest, done := ReadRound(readbuf, script, s, q0, done);
        if stop == AtError {
          return -1;
        }
        if stop == AtEof {
          return 0;
        }
        s := rest;
      }
    }

    /**
     * One pass of read_endpt's retry loop: set up, read to end of file or error, and
     * decide on the retry setting. NO and IGNORE insert the end tag into every output
     * and end the reader; YES (and KILL) go round again.
     */
    method Cycle(env: ReaderEnv) returns (end: CycleEnd)
      requires Valid()
      modifies this, BufRepr
      ensures Valid()
      ensures var c := ReaderCycleOf(old(cfg), old(listening), env);
        && end == c.end
        && listening == c.listening
        && cfg == old(cfg).(exitStatus := c.status)
        && forall i :: 0 <= i < |outs| ==> outs[i].Contents == EnqueueAll(old(outs[i].Contents), c.items).0
    {
      var ok := Setup(env);
      var status;
      ghost var items: seq<Item> := [];
      if ok {
        status := ReadAll(env.script);
        items := ChunkItems(ReadPhase(env.script, []).chunks);
      } else {
        status := -1;
        assert ChunkItems([]) == [];
      }
      cfg := cfg.(exitStatus := status);
      end := Repeat(items);
      forall i | 0 <= i < |outs| && end == Terminate
        ensures outs[i].Contents == EnqueueAll(old(outs[i].Contents), items + [EndOfData]).0
      {
        EnqueueAllSnoc(old(outs[i].Contents), items, EndOfData);
      }
    }

    /** read_repeat: NO and IGNORE insert the end tag into every output and end the reader; YES and KILL retry. */
    method Repeat(ghost items: seq<Item>) returns (end: CycleEnd)
      requires Valid()
      modifies BufRepr
      ensures Valid()
      ensures end == Terminate <==> cfg.retry == No || cfg.retry == Ignore
      ensures forall i :: 0 <= i < |outs| ==>
        outs[i].Contents == if end == Terminate then Enqueue(old(outs[i].Contents), EndOfData) else old(outs[i].Contents)
    {
      match cfg.retry {
        case No | Ignore =>
          FanOut([], BufEndData);
          end := Terminate;
        case _ =>
          end := Continue;
      }
    }
  }

  /** What taking one item out of the queue came to: a chunk written out, the end tag, or a failed write. */
  datatype Took = Written | EndTag | Failed

  /** Where write_endpt stands after a step: waiting in buffer_after_delete on an empty queue, or at the end of a cycle. */
  datatype WriterStep = Waiting | Ended(end: CycleEnd)

  /** write_endpt's state: the output's configuration, its buffer, and whether its sink is open. */
  class OutputDriver {
    var cfg: EndptCfg
    var streaming: bool
    const buf: OutputBuffer

    ghost predicate Valid()
      reads this, buf, buf.buffer, buf.datalens
    {
      cfg.kind != TInval && buf.Valid()
    }

    /** A writer over a checked output (its type is defined) and its buffer; no sink is open yet. */
    constructor (cfg: EndptCfg, buf: OutputBuffer)
      requires cfg.kind != TInval && buf.Valid()
      ensures Valid() && this.cfg == cfg && this.buf == buf && !streaming
    {
      this.cfg := cfg;
      this.buf := buf;
      streaming := false;
    }

    /**
     * The set-up part of write_endpt's cycle: open the file (truncating it), connect to
     * the first address that takes socket and connect, or use standard output. A
     * failure records -1 and goes to the retry decision.
     */
    method Open(env: WriterEnv) returns (step: WriterStep)
      requires Valid() && !streaming
      modifies this
      ensures Valid() && buf.Contents == old(buf.Contents)
      ensures SetupOutput(old(cfg).kind, env) ==> streaming && cfg == old(cfg) && step == Waiting
      ensures !SetupOutput(old(cfg).kind, env) ==> !streaming
      ensures !SetupOutput(old(cfg).kind, env) ==>
        step == Ended(WriteRepeat(old(cfg).(exitStatus := -1)).0) && cfg == WriteRepeat(old(cfg).(exitStatus := -1)).1
    {
      var ok;
      match cfg.kind {
        case TFile =>
          ok := env.openOk;
        case TSocket =>
          if !env.resolveOk {
            ok := false;
          } else {
            var idx := FirstUsable(env.addrs);
            ok := idx != -1;
          }
        case TStd =>
          ok := true;
      }
      if ok {
        streaming := true;
        return Waiting;
      }
      var r := WriteRepeat(cfg.(exitStatus := -1));
      cfg := r.1;
      return Ended(r.0);
    }

    /**
     * The write loops of write_endpt over whatever is queued: take each item; at the
     * end tag record 0 and close; otherwise write the chunk out with as many writes as
     * it takes, and on a failed write record -1 and close. When the queue runs empty
     * the writer would wait for the reader, and the step ends Blocked. `sent` is what
     * the writes took, in order.
     */
    method Drain(w: seq<WriteResult>) returns (step: WriterStep, sent: seq<Byte>)
      requires Valid() && streaming
      modifies this, buf
      ensures Valid()
      ensures buf.Contents == old(buf.Contents)[DrainOf(old(buf.Contents), w).taken..]
      ensures sent == DrainOf(old(buf.Contents), w).sent
      ensures DrainOf(old(buf.Contents), w).end == Blocked ==> step == Waiting && streaming && cfg == old(cfg)
      ensures DrainOf(old(buf.Contents), w).end != Blocked ==> !streaming
      ensures DrainOf(old(buf.Contents), w).end == EndSeen ==>
        step == Ended(WriteRepeat(old(cfg).(exitStatus := 0)).0) && cfg == WriteRepeat(old(cfg).(exitStatus := 0)).1
      ensures DrainOf(old(buf.Contents), w).end == WriteError ==>
        step == Ended(WriteRepeat(old(cfg).(exitStatus := -1)).0) && cfg == WriteRepeat(old(cfg).(exitStatus := -1)).1
    {
      var end;
      end, sent := DrainQueue(w);
      match end {
        case Blocked =>
          step := Waiting;
        case EndSeen =>
          streaming := false;
          var r := WriteRepeat(cfg.(exitStatus := 0));
          cfg := r.1;
          step := Ended(r.0);
        case WriteError =>
          streaming := false;
          var r := WriteRepeat(cfg.(exitStatus := -1));
          cfg := r.1;
          step := Ended(r.0);
      }
    }

    /** The item loop of write_endpt on its own: take items until the queue is empty, the end tag or a failed write. */
    method DrainQueue(w: seq<WriteResult>) returns (end: DrainEnd, sent: seq<Byte>)
      requires Valid()
      modifies buf
      ensures Valid()
      ensures buf.Contents == old(buf.Contents)[DrainOf(old(buf.Contents), w).taken..]
      ensures sent == DrainOf(old(buf.Contents), w).sent && end == DrainOf(old(buf.Contents), w).end
    {
      ghost var q0 := buf.Contents;
      ghost var d0 := DrainOf(q0, w);
      sent := [];
      var s := w;
      ghost var taken := 0;
      while !buf.IsEmpty()
        invariant Valid()
        invariant taken <= |q0| && buf.Contents == q0[taken..]
        invariant d0 == Drained(taken + DrainOf(buf.Contents, s).taken, sent + DrainOf(buf.Contents, s).sent,
                                DrainOf(buf.Contents, s).end, DrainOf(buf.Contents, s).rest)
        decreases |buf.Contents|
      {
        ghost var q := buf.Contents;
        ghost var s0 := s;
        ghost var sent0 := sent;
        var took, out;
        took, out, s := TakeOne(s);
        sent := sent + out;
        match took {
          case EndTag =>
            return EndSeen, sent;
          case Failed =>
            return WriteError, sent;
          case Written =>
            DrainAfterWrite(q, s0, out, s);
            assert sent0 + (out + DrainOf(q[1..], s).sent) == sent + DrainOf(q[1..], s).sent;
            assert q0[taken + 1..] == q[1..];
            taken := taken + 1;
        }
      }
      end := Blocked;
    }

    /** The innermost loop of write_endpt: write the consumer's chunk until all of it is taken or a write fails. */
    method WriteChunk(off: int, towrite: int, ghost b: seq<Byte>, w: seq<WriteResult>)
      returns (ok: bool, out: seq<Byte>, rest: seq<WriteResult>)
      requires 0 <= off && towrite == |b| && off + towrite <= buf.buffer.Length
      requires buf.buffer[off .. off + towrite] == b
      ensures var o := WriteOut(b, w, 0); ok == o.ok && rest == o.rest && out == b[..o.written]
    {
      var nwritten := 0;
      out, rest := [], w;
      while nwritten < towrite
        invariant 0 <= nwritten <= towrite
        invariant WriteOut(b, w, 0) == WriteOut(b, rest, nwritten)
        invariant out == b[..nwritten]
        decreases |rest|, towrite - nwritten
      {
        var (res, r) := WriteCall(rest, towrite - nwritten);
        if res < 0 {
          return false, out, r;
        }
        var part := buf.buffer[off + nwritten .. off + nwritten + res];
        SubSlice(buf.buffer[..], off, off + towrite, nwritten, nwritten + res);
        assert part == b[nwritten .. nwritten + res];
        assert b[..nwritten + res] == b[..nwritten] + part;
        out := out + part;
        nwritten := nwritten + res;
        rest := r;
      }
      ok := true;
    }

    /** One pass of write_endpt's item loop: buffer_after_delete, then the chunk written out unless it is the end tag. */
    method TakeOne(w: seq<WriteResult>) returns (took: Took, out: seq<Byte>, rest: seq<WriteResult>)
      requires Valid() && buf.Contents != []
      modifies buf
      ensures Valid() && buf.Contents == old(buf.Contents)[1..]
      ensures took == EndTag <==> old(buf.Contents)[0] == EndOfData
      ensures took == EndTag ==> out == [] && rest == w
      ensures took != EndTag ==> old(buf.Contents)[0].Chunk?
      ensures old(buf.Contents)[0].Chunk? ==>
        var b := old(buf.Contents)[0].bytes; var o := WriteOut(b, w, 0);
        (took == Written <==> o.ok) && rest == o.rest && out == b[..o.written]
    {
      var towrite := buf.AfterDelete();
      if towrite == BufEndData {
        return EndTag, [], w;
      }
      var ok;
      var off := buf.ConsDataPointer();
      ok, out, rest := WriteChunk(off, towrite, buf.Current().bytes, w);
      took := if ok then Written else Failed;
    }
  }
}
