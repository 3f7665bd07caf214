/**
 * The UDP channel: `send` cuts a message into chunks and emits one datagram per chunk;
 * `recv` collects the chunks of each message id in a fragment map and hands back a
 * message once every slot of its buffer is filled.  The socket is replaced by values:
 * `Send` returns the datagrams it would hand to the socket, and `Recv` takes the
 * datagrams the socket would deliver, in arrival order.
 */
module Transport {
  import opened Wrappers
  import opened Wire

  /** The reassembly state of one message id: a slot per chunk, empty until it is written. */
  datatype FragmentBuffer = FragmentBuffer(chunks: seq<seq<byte>>, totalChunks: int)

  /** The fragment map, from message id to the buffer collecting its chunks. */
  type Fragments = map<uint32, FragmentBuffer>

  /** What handling one datagram gives: a failure, a wait for more, or a whole message. */
  datatype Delivery = TooShort | Pending | Complete(message: seq<byte>)

  /**
   * The buffer a datagram with header `h` writes into: the id's entry when that has slots,
   * and otherwise a fresh one of `h.total` empty slots (the first packet sizes the buffer).
   */
  function Slots(m: Fragments, h: Header): FragmentBuffer
  {
    if h.msgId in m && |m[h.msgId].chunks| > 0 then m[h.msgId]
    else FragmentBuffer(seq(h.total, _ => []), h.total)
  }

  /** The chunk index of the datagram names a slot of its buffer (the source does not check it). */
  predicate Accepts(m: Fragments, dg: seq<byte>)
  {
    |dg| >= HeaderSize ==> DecodeHeader(dg).index < |Slots(m, DecodeHeader(dg)).chunks|
  }

  /** Every slot holds a non-empty chunk. */
  predicate Filled(chunks: seq<seq<byte>>)
  {
    forall i :: 0 <= i < |chunks| ==> chunks[i] != []
  }

  /** The slots once chunk `h.index` holds the payload of the datagram. */
  function Stored(m: Fragments, dg: seq<byte>): seq<seq<byte>>
    requires |dg| >= HeaderSize && Accepts(m, dg)
  {
    var h := DecodeHeader(dg);
    Slots(m, h).chunks[h.index := dg[HeaderSize..]]
  }

  /**
   * One pass of `recv` over a received datagram: the outcome and the new fragment map.
   * Only the entry of the datagram's own message id can change.
   */
  function Deliver(m: Fragments, dg: seq<byte>): (Delivery, Fragments)
    requires Accepts(m, dg)
  {
    if |dg| < HeaderSize then (TooShort, m)
    else
      var h := DecodeHeader(dg);
      var chunks := Stored(m, dg);
      if Filled(chunks) then (Complete(Concat(chunks)), m - {h.msgId})
      else (Pending, m[h.msgId := FragmentBuffer(chunks, Slots(m, h).totalChunks)])
  }

  /** A datagram that fits its buffer stores its payload and then completes or waits. */
  lemma DeliverStores(m: Fragments, dg: seq<byte>, chunks: seq<seq<byte>>, totalChunks: int)
    requires |dg| >= HeaderSize && Accepts(m, dg)
    requires Stored(m, dg) == chunks && Slots(m, DecodeHeader(dg)).totalChunks == totalChunks
    ensures Filled(chunks) ==> Deliver(m, dg) == (Complete(Concat(chunks)), m - {DecodeHeader(dg).msgId})
    ensures !Filled(chunks) ==>
      Deliver(m, dg) == (Pending, m[DecodeHeader(dg).msgId := FragmentBuffer(chunks, totalChunks)])
  {
  }

  /**
   * What a datagram writes: when its id has no entry, or one without slots, the buffer gets
   * `total` slots from the header, all empty but the datagram's own; otherwise the entry keeps
   * its size and its other slots.  Either way slot `index` now holds the payload.
   */
  lemma DeliverWritesSlot(m: Fragments, dg: seq<byte>)
    requires |dg| >= HeaderSize && Accepts(m, dg)
    ensures var h := DecodeHeader(dg);
      (h.msgId !in m || |m[h.msgId].chunks| == 0) ==>
        |Stored(m, dg)| == h.total && Slots(m, h).totalChunks == h.total
    ensures var h := DecodeHeader(dg);
      h.msgId in m && |m[h.msgId].chunks| > 0 ==>
        |Stored(m, dg)| == |m[h.msgId].chunks| && Slots(m, h).totalChunks == m[h.msgId].totalChunks
    ensures Stored(m, dg)[DecodeHeader(dg).index] == dg[HeaderSize..]
    ensures var h := DecodeHeader(dg);
      forall i :: 0 <= i < |Stored(m, dg)| && i != h.index ==>
        Stored(m, dg)[i] == (if h.msgId in m && |m[h.msgId].chunks| > 0 then m[h.msgId].chunks[i] else [])
  {
  }

  /** A datagram shorter than its header makes `recv` fail and leaves the map alone. */
  lemma DeliverTooShort(m: Fragments, dg: seq<byte>)
    requires |dg| < HeaderSize
    ensures Deliver(m, dg) == (TooShort, m)
  {
  }

  /** A datagram changes only the entry of its own message id. */
  lemma DeliverIsolation(m: Fragments, dg: seq<byte>, id: uint32)
    requires Accepts(m, dg)
    requires |dg| < HeaderSize || id != DecodeHeader(dg).msgId
    ensures id in Deliver(m, dg).1 <==> id in m
    ensures id in m ==> Deliver(m, dg).1[id] == m[id]
  {
  }

  /**
   * A datagram completes its message exactly when it leaves every slot filled; the message
   * is then the slots in index order and the id leaves the map; otherwise the id keeps
   * the partial buffer.
   */
  lemma DeliverOutcome(m: Fragments, dg: seq<byte>)
    requires |dg| >= HeaderSize && Accepts(m, dg)
    ensures Deliver(m, dg).0 != TooShort
    ensures Deliver(m, dg).0.Complete? <==> Filled(Stored(m, dg))
    ensures Deliver(m, dg).0.Complete? ==>
      Deliver(m, dg).0.message == Concat(Stored(m, dg)) && DecodeHeader(dg).msgId !in Deliver(m, dg).1
    ensures Deliver(m, dg).0.Pending? ==>
      DecodeHeader(dg).msgId in Deliver(m, dg).1 &&
      Deliver(m, dg).1[DecodeHeader(dg).msgId].chunks == Stored(m, dg)
  {
  }

  /**
   * Every entry kept in the map has as many slots as its recorded count, at least one,
   * and at least one of them still empty.
   */
  predicate WellFormed(m: Fragments)
  {
    forall id :: id in m ==>
      |m[id].chunks| == m[id].totalChunks && |m[id].chunks| > 0 && !Filled(m[id].chunks)
  }

  /** Handling a datagram keeps the map well formed. */
  lemma DeliverKeepsWellFormed(m: Fragments, dg: seq<byte>)
    requires WellFormed(m) && Accepts(m, dg)
    ensures WellFormed(Deliver(m, dg).1)
  {
  }

  /**
   * A duplicate datagram changes nothing: when the id's buffer already holds its payload
   * in slot `index` and the message is still pending, however many other chunks arrived
   * since, the slot is overwritten by the same payload and the map stays as it was.
   */
  lemma DuplicateChunkIsIdempotent(m: Fragments, dg: seq<byte>)
    requires |dg| >= HeaderSize
    requires DecodeHeader(dg).msgId in m
    requires var buf := m[DecodeHeader(dg).msgId];
      |buf.chunks| > 0 && DecodeHeader(dg).index < |buf.chunks| &&
      buf.chunks[DecodeHeader(dg).index] == dg[HeaderSize..] && !Filled(buf.chunks)
    ensures Accepts(m, dg)
    ensures Deliver(m, dg) == (Pending, m)
  {
    var h := DecodeHeader(dg);
    var buf := m[h.msgId];
    assert Slots(m, h) == buf;
    assert Stored(m, dg) == buf.chunks;
    assert m[h.msgId := FragmentBuffer(buf.chunks, buf.totalChunks)] == m;
  }

  /**
   * In particular, delivering the same datagram twice in a row, while its message is
   * still pending, changes nothing the second time.
   */
  lemma RedeliveryIsIdempotent(m: Fragments, dg: seq<byte>)
    requires Accepts(m, dg) && Deliver(m, dg).0.Pending?
    ensures Accepts(Deliver(m, dg).1, dg)
    ensures Deliver(Deliver(m, dg).1, dg) == Deliver(m, dg)
  {
    var h := DecodeHeader(dg);
    var m1 := Deliver(m, dg).1;
    var buf := FragmentBuffer(Stored(m, dg), Slots(m, h).totalChunks);
    assert m1 == m[h.msgId := buf];
    assert Slots(m1, h) == buf;
    assert Stored(m1, dg) == Stored(m, dg);
    assert m1[h.msgId := buf] == m1;
  }

  /**
   * `recv` can be run on these arrivals: each datagram it reads names a slot of its buffer.
   * It reads datagrams until one is too short or completes a message.
   */
  predicate Receivable(m: Fragments, incoming: seq<seq<byte>>)
    decreases |incoming|
  {
    |incoming| == 0 ||
    (Accepts(m, incoming[0]) &&
     (Deliver(m, incoming[0]).0.Pending? ==> Receivable(Deliver(m, incoming[0]).1, incoming[1..])))
  }

  /** The result of `recv`: the message when it returns true, the datagrams read, the new map. */
  datatype Reception = Reception(message: Option<seq<byte>>, consumed: nat, fragments: Fragments)

  /**
   * `recv` as a function of the map and the arrivals.  Running out of arrivals stands for
   * `recvfrom` failing or timing out.
   */
  function ReceiveFrom(m: Fragments, incoming: seq<seq<byte>>): (r: Reception)
    requires Receivable(m, incoming)
    ensures r.consumed <= |incoming|
    ensures r.message.Some? ==> r.consumed > 0
    decreases |incoming|
  {
    if |incoming| == 0 then Reception(None, 0, m)
    else
      var (d, m1) := Deliver(m, incoming[0]);
      match d
      case TooShort => Reception(None, 1, m1)
      case Complete(message) => Reception(Some(message), 1, m1)
      case Pending =>
        var r := ReceiveFrom(m1, incoming[1..]);
        Reception(r.message, r.consumed + 1, r.fragments)
  }

  /** `order` lists each of 0 .. n-1 exactly once. */
  predicate IsPermutation(order: seq<nat>, n: nat)
  {
    |order| == n &&
    (forall j :: 0 <= j < n ==> order[j] < n) &&
    (forall i :: 0 <= i < n ==> i in order) &&
    (forall j, k :: 0 <= j < k < n ==> order[j] != order[k])
  }

  /** The datagrams of `message` arriving in the order `order` gives. */
  function Arrivals(message: seq<byte>, msgId: uint32, order: seq<nat>): seq<seq<byte>>
    requires IsPermutation(order, TotalChunks(|message|))
  {
    var ps := Packets(message, msgId);
    seq(|order|, j => if 0 <= j < |order| then ps[order[j]] else [])
  }

  /** The slots of `message` after the arrivals `order[..j]`. */
  function Partial(message: seq<byte>, order: seq<nat>, j: nat): seq<seq<byte>>
    requires IsPermutation(order, TotalChunks(|message|)) && j <= |order|
  {
    var n := TotalChunks(|message|);
    seq(n, i => if 0 <= i < n && i in order[..j] then Chunk(message, i) else [])
  }

  /** The fragment map after the arrivals `order[..j]`, when `m` had no entry for `msgId`. */
  function PartialMap(m: Fragments, message: seq<byte>, msgId: uint32, order: seq<nat>, j: nat): Fragments
    requires IsPermutation(order, TotalChunks(|message|)) && j <= |order|
  {
    if j == 0 then m
    else m[msgId := FragmentBuffer(Partial(message, order, j), TotalChunks(|message|))]
  }

  /** Arrival `j` carries the header (msgId, n, order[j]) and chunk `order[j]`. */
  lemma ArrivalContents(message: seq<byte>, msgId: uint32, order: seq<nat>, j: nat)
    requires TotalChunks(|message|) < 0x1_0000
    requires IsPermutation(order, TotalChunks(|message|)) && j < |order|
    ensures |Arrivals(message, msgId, order)[j]| >= HeaderSize
    ensures DecodeHeader(Arrivals(message, msgId, order)[j]) == Header(msgId, TotalChunks(|message|), order[j])
    ensures Arrivals(message, msgId, order)[j][HeaderSize..] == Chunk(message, order[j])
  {
    PacketContents(message, msgId, order[j]);
  }

  /** Storing chunk `order[j]` into the slots after `j` arrivals gives the slots after `j + 1`. */
  lemma PartialStep(message: seq<byte>, order: seq<nat>, j: nat)
    requires IsPermutation(order, TotalChunks(|message|)) && j < |order|
    ensures Partial(message, order, j)[order[j] := Chunk(message, order[j])] == Partial(message, order, j + 1)
  {
    assert order[..j + 1] == order[..j] + [order[j]];
  }

  /** After every arrival the slots are the chunks; before that some slot is still empty. */
  lemma PartialFilled(message: seq<byte>, order: seq<nat>, j: nat)
    requires IsPermutation(order, TotalChunks(|message|)) && 0 < j <= |order|
    ensures Filled(Partial(message, order, j)) <==> j == |order|
    ensures j == |order| ==> Concat(Partial(message, order, j)) == message
  {
    if j == |order| {
      assert order[..j] == order;
      assert Partial(message, order, j) == Chunks(message);
      ChunksConcat(message);
    } else {
      assert order[j] !in order[..j];
      assert Partial(message, order, j)[order[j]] == [];
    }
  }

  /**
   * One arrival, over plain values: datagram `dg` carries chunk `order[j]` and `st` is the
   * map after `j` arrivals; it leaves `after`, the map after `j + 1`, or completes.
   */
  lemma ReassemblyStep(m: Fragments, message: seq<byte>, msgId: uint32, order: seq<nat>, j: nat,
                       st: Fragments, dg: seq<byte>, after: Fragments)
    requires msgId !in m && TotalChunks(|message|) < 0x1_0000
    requires IsPermutation(order, TotalChunks(|message|)) && j < |order|
    requires st == PartialMap(m, message, msgId, order, j)
    requires |dg| >= HeaderSize && DecodeHeader(dg) == Header(msgId, TotalChunks(|message|), order[j])
    requires dg[HeaderSize..] == Chunk(message, order[j])
    requires j + 1 < |order| ==> after == PartialMap(m, message, msgId, order, j + 1)
    requires j + 1 == |order| ==> after == m
    ensures Accepts(st, dg)
    ensures j + 1 < |order| ==> Deliver(st, dg) == (Pending, after)
    ensures j + 1 == |order| ==> Deliver(st, dg) == (Complete(message), m)
  {
    var n := TotalChunks(|message|);
    PartialStep(message, order, j);
    PartialFilled(message, order, j + 1);
    if j == 0 {
      assert order[..0] == [];
    }
    DeliverIntoPartial(m, msgId, st, dg, Partial(message, order, j), order[j], Chunk(message, order[j]),
                       Partial(message, order, j + 1), n, j == 0, j + 1 == n, after);
  }

  /**
   * Delivering a datagram with header (msgId, n, k) into a buffer whose slots are `slots`
   * (or into no entry at all for the first arrival, `first`), stated over plain values.
   */
  lemma DeliverIntoPartial(m: Fragments, msgId: uint32, st: Fragments, dg: seq<byte>, slots: seq<seq<byte>>,
                           k: nat, chunk: seq<byte>, next: seq<seq<byte>>, n: nat, first: bool, last: bool,
                           after: Fragments)
    requires msgId !in m && 0 < n < 0x1_0000 && k < n && |slots| == n
    requires first ==> st == m && forall i :: 0 <= i < n ==> slots[i] == []
    requires !first ==> st == m[msgId := FragmentBuffer(slots, n)]
    requires |dg| >= HeaderSize && DecodeHeader(dg) == Header(msgId, n, k) && dg[HeaderSize..] == chunk
    requires slots[k := chunk] == next && (Filled(next) <==> last)
    requires last ==> after == m
    requires !last ==> after == m[msgId := FragmentBuffer(next, n)]
    ensures Accepts(st, dg)
    ensures last ==> Deliver(st, dg) == (Complete(Concat(next)), after)
    ensures !last ==> Deliver(st, dg) == (Pending, after)
  {
    var h := DecodeHeader(dg);
    assert Slots(st, h) == FragmentBuffer(slots, n);
    assert Stored(st, dg) == next;
    if last {
      assert st - {msgId} == m;
    } else {
      assert st[msgId := FragmentBuffer(next, n)] == after;
    }
  }

  /**
   * One Pending step of `recv`: what it returns is what the rest of the arrivals give.
   * (An unfolding of ReceiveFrom, stated once so the chain proof can name it.)
   */
  lemma ReceivePendingStep(m: Fragments, incoming: seq<seq<byte>>)
    requires |incoming| > 0 && Accepts(m, incoming[0]) && Deliver(m, incoming[0]).0.Pending?
    requires Receivable(Deliver(m, incoming[0]).1, incoming[1..])
    ensures Receivable(m, incoming)
    ensures ReceiveFrom(m, incoming) ==
      var r := ReceiveFrom(Deliver(m, incoming[0]).1, incoming[1..]);
      Reception(r.message, r.consumed + 1, r.fragments)
  {
  }

  /** A step of `recv` that completes a message returns it after one datagram (an unfolding of ReceiveFrom). */
  lemma ReceiveCompleteStep(m: Fragments, incoming: seq<seq<byte>>)
    requires |incoming| > 0 && Accepts(m, incoming[0]) && Deliver(m, incoming[0]).0.Complete?
    ensures Receivable(m, incoming)
    ensures ReceiveFrom(m, incoming) ==
      Reception(Some(Deliver(m, incoming[0]).0.message), 1, Deliver(m, incoming[0]).1)
  {
  }

  /**
   * Datagram `dgs[i]` moves the map from `states[i]` to `states[i + 1]` leaving its message
   * pending, and the last one completes `message`, leaving `final`.
   */
  predicate Chain(states: seq<Fragments>, dgs: seq<seq<byte>>, message: seq<byte>, final: Fragments)
  {
    |states| == |dgs| > 0 &&
    (forall i :: 0 <= i < |dgs| ==> Accepts(states[i], dgs[i])) &&
    (forall i :: 0 <= i < |dgs| - 1 ==> Deliver(states[i], dgs[i]) == (Pending, states[i + 1])) &&
    Deliver(states[|dgs| - 1], dgs[|dgs| - 1]) == (Complete(message), final)
  }

  /** Along a chain, `recv` started in state `j` reads the datagrams from `j` on and returns `message`. */
  lemma {:induction false} ReceiveChain(states: seq<Fragments>, dgs: seq<seq<byte>>, j: nat,
                                        message: seq<byte>, final: Fragments, rest: seq<seq<byte>>)
    requires Chain(states, dgs, message, final) && j < |dgs|
    ensures Receivable(states[j], dgs[j..] + rest)
    ensures ReceiveFrom(states[j], dgs[j..] + rest) == Reception(Some(message), |dgs| - j, final)
    decreases |dgs| - j
  {
    var incoming := dgs[j..] + rest;
    assert incoming[0] == dgs[j];
    if j + 1 < |dgs| {
      ReceiveChain(states, dgs, j + 1, message, final, rest);
      assert incoming[1..] == dgs[j + 1..] + rest;
      ReceivePendingStep(states[j], incoming);
    } else {
      ReceiveCompleteStep(states[j], incoming);
    }
  }

  /** The arrivals of a message in the order `order` form a chain through the partial maps. */
  lemma ArrivalsChain(m: Fragments, message: seq<byte>, msgId: uint32, order: seq<nat>,
                      states: seq<Fragments>, dgs: seq<seq<byte>>)
    requires msgId !in m && 0 < |message| && TotalChunks(|message|) < 0x1_0000
    requires IsPermutation(order, TotalChunks(|message|))
    requires |states| == |dgs| == |order|
    requires forall i :: 0 <= i < |dgs| ==>
      |dgs[i]| >= HeaderSize &&
      DecodeHeader(dgs[i]) == Header(msgId, TotalChunks(|message|), order[i]) &&
      dgs[i][HeaderSize..] == Chunk(message, order[i])
    requires forall i :: 0 <= i < |states| ==> states[i] == PartialMap(m, message, msgId, order, i)
    ensures Chain(states, dgs, message, m)
  {
    var n := |order|;
    forall i | 0 <= i < n - 1
      ensures Accepts(states[i], dgs[i]) && Deliver(states[i], dgs[i]) == (Pending, states[i + 1])
    {
      ReassemblyStep(m, message, msgId, order, i, states[i], dgs[i], states[i + 1]);
    }
    ReassemblyStep(m, message, msgId, order, n - 1, states[n - 1], dgs[n - 1], m);
  }

  /**
   * The datagrams of a non-empty message of at most 65535 chunks, arriving in any order
   * (and followed by anything), make `recv` return that message after reading exactly
   * those datagrams, leaving the map as it was.
   */
  lemma ReassemblyRoundTrip(m: Fragments, message: seq<byte>, msgId: uint32, order: seq<nat>,
                            rest: seq<seq<byte>>)
    requires msgId !in m && 0 < |message| && TotalChunks(|message|) < 0x1_0000
    requires IsPermutation(order, TotalChunks(|message|))
    ensures Receivable(m, Arrivals(message, msgId, order) + rest)
    ensures ReceiveFrom(m, Arrivals(message, msgId, order) + rest) ==
      Reception(Some(message), TotalChunks(|message|), m)
  {
    var dgs := Arrivals(message, msgId, order);
    var states := seq(|order|, j => if 0 <= j < |order| then PartialMap(m, message, msgId, order, j) else m);
    forall i | 0 <= i < |dgs|
      ensures |dgs[i]| >= HeaderSize
      ensures DecodeHeader(dgs[i]) == Header(msgId, TotalChunks(|message|), order[i])
      ensures dgs[i][HeaderSize..] == Chunk(message, order[i])
    {
      ArrivalContents(message, msgId, order, i);
    }
    ArrivalsChain(m, message, msgId, order, states, dgs);
    ReceiveChain(states, dgs, 0, message, m, rest);
    assert states[0] == m;
    assert dgs[0..] == dgs;
  }

  /** The completeness check of `recv`: a scan of the slots that stops at the first empty one. */
  method AllFilled(chunks: seq<seq<byte>>) returns (complete: bool)
    ensures complete <==> Filled(chunks)
  {
    complete := true;
    var i := 0;
    while i < |chunks|
      invariant 0 <= i <= |chunks| && complete
      invariant forall k :: 0 <= k < i ==> chunks[k] != []
    {
      if chunks[i] == [] {
        complete := false;
        break;
      }
      i := i + 1;
    }
  }

  /** The reassembly loop of `recv`: the slots appended to one another in index order. */
  method Concatenate(chunks: seq<seq<byte>>) returns (message: seq<byte>)
    ensures message == Concat(chunks)
  {
    message := [];
    var j := 0;
    while j < |chunks|
      invariant 0 <= j <= |chunks|
      invariant message == Concat(chunks[..j])
    {
      assert chunks[..j + 1][..j] == chunks[..j];
      message := message + chunks[j];
      j := j + 1;
    }
    assert chunks[..j] == chunks;
  }

  /** The channel's state: the fragment map `recv` keeps between calls, kept WellFormed. */
  class Channel {
    var fragments: Fragments

    constructor ()
      ensures fragments == map[]
      ensures WellFormed(fragments)
    {
      fragments := map[];
    }

    /**
     * `send`: one datagram per chunk, in index order.  The socket accepts the first
     * `socketLimit` datagrams and fails on the next one, which makes `send` return false.
     */
    method Send(message: seq<byte>, msgId: uint32, socketLimit: nat) returns (ok: bool, sent: seq<seq<byte>>)
      ensures ok <==> TotalChunks(|message|) <= socketLimit
      ensures sent == Packets(message, msgId)[..Min(TotalChunks(|message|), socketLimit)]
    {
      var totalChunks: nat := (|message| + MaxPayload - 1) / MaxPayload;
      sent := [];
      var i: nat := 0;
      while i < totalChunks
        invariant totalChunks == TotalChunks(|message|)
        invariant i <= totalChunks && i <= socketLimit
        invariant sent == Packets(message, msgId)[..i]
      {
        if i == socketLimit {
          return false, sent;
        }
        var offset := i * MaxPayload;
        var chunkSize := Min(MaxPayload, |message| - offset);
        var packet := EncodeHeader(Header(msgId, Truncate16(totalChunks), Truncate16(i)));
        packet := packet + message[offset..offset + chunkSize];
        sent := sent + [packet];
        i := i + 1;
      }
      return true, sent;
    }

    /** One pass of `recv` after `recvfrom` returned `datagram`. */
    method ReceivePacket(datagram: seq<byte>) returns (d: Delivery)
      requires Accepts(fragments, datagram)
      modifies this
      ensures (d, fragments) == Deliver(old(fragments), datagram)
      ensures old(WellFormed(fragments)) ==> WellFormed(fragments)
    {
      ghost var m0 := fragments;
      if WellFormed(m0) {
        DeliverKeepsWellFormed(m0, datagram);
      }
      if |datagram| < HeaderSize {
        return TooShort;
      }
      var h := DecodeHeader(datagram);
      var payload := datagram[HeaderSize..];
      var frag := if h.msgId in fragments then fragments[h.msgId] else FragmentBuffer([], 0);
      if |frag.chunks| == 0 {
        frag := FragmentBuffer(seq(h.total, _ => []), h.total);
      }
      assert frag == Slots(m0, h);
      frag := frag.(chunks := frag.chunks[h.index := payload]);
      DeliverStores(m0, datagram, frag.chunks, frag.totalChunks);
      fragments := fragments[h.msgId := frag];

      var complete := AllFilled(frag.chunks);
      if complete {
        var message := Concatenate(frag.chunks);
        assert fragments - {h.msgId} == m0 - {h.msgId};
        fragments := fragments - {h.msgId};
        return Complete(message);
      }
      return Pending;
    }

    /**
     * `recv`: handle arrivals until one is too short or completes a message; a pending
     * message sends it back for the next datagram.
     */
    method Recv(incoming: seq<seq<byte>>) returns (message: Option<seq<byte>>, consumed: nat)
      requires Receivable(fragments, incoming)
      modifies this
      ensures ReceiveFrom(old(fragments), incoming) == Reception(message, consumed, fragments)
      ensures old(WellFormed(fragments)) ==> WellFormed(fragments)
    {
      consumed := 0;
      while consumed < |incoming|
        invariant consumed <= |incoming|
        invariant old(WellFormed(fragments)) ==> WellFormed(fragments)
        invariant Receivable(fragments, incoming[consumed..])
        invariant var r := ReceiveFrom(fragments, incoming[consumed..]);
          ReceiveFrom(old(fragments), incoming) == Reception(r.message, r.consumed + consumed, r.fragments)
        decreases |incoming| - consumed
      {
        var rest := incoming[consumed..];
        assert rest[0] == incoming[consumed] && rest[1..] == incoming[consumed + 1..];
        var d := ReceivePacket(incoming[consumed]);
        consumed := consumed + 1;
        match d
        case TooShort =>
          return None, consumed;
        case Complete(m) =>
          return Some(m), consumed;
        case Pending =>
      }
      return None, consumed;
    }
  }
}
