/** The data relay between a client and its destination: the per-chunk rule of the modify callbacks,
    and each direction's pump, run over the successive chunks its reader returns. */
module Relay {
  import opened Wire
  import opened Streams
  import Server

  datatype DataDirection = ClientToDst | DstToClient

  /** What a modify callback returns: bytes to send instead, `DataModify.DONT_SEND`, or anything else,
      which leaves the decision to the next callback. */
  datatype ModifyResult = Replace(payload: Bytes) | DontSend | Undecided

  /** A modify callback, as the map from the direction and chunk it is given to its result
      (the client argument is the same for every call of one relay). */
  type ModifyCallback = (DataDirection, Bytes) -> ModifyResult

  /** What one direction's pump does, in order: a data callback scheduled as a task, a modify callback
      (by its position) awaited, a chunk written to the opposite side. */
  datatype Event =
    | Scheduled(observer: Server.HandlerId, direction: DataDirection, chunk: Bytes)
    | Invoked(modifier: nat, direction: DataDirection, chunk: Bytes)
    | Written(payload: Bytes)

  /** `_exec_modify_callbacks(direction, data)`: the first callback that returns bytes or DONT_SEND
      decides (bytes to send, or None for nothing); when none decides, the chunk goes on unchanged. */
  function ExecModifyCallbacks(cbs: seq<ModifyCallback>, dir: DataDirection, data: Bytes): (r: Option<Bytes>)
    ensures r.None? ==> exists k :: 0 <= k < |cbs| && cbs[k](dir, data) == DontSend
    ensures r.Some? && r.value != data ==> exists k :: 0 <= k < |cbs| && cbs[k](dir, data) == Replace(r.value)
  {
    if cbs == [] then Some(data)
    else
      match cbs[0](dir, data)
      case Replace(b) => Some(b)
      case DontSend => None
      case Undecided =>
        var r := ExecModifyCallbacks(cbs[1..], dir, data);
        assert forall k :: 0 <= k < |cbs| - 1 ==> cbs[1..][k] == cbs[k + 1];
        r
  }

  /** How many modify callbacks `_exec_modify_callbacks` awaits: up to and including the first that decides. */
  function InvokedCount(cbs: seq<ModifyCallback>, dir: DataDirection, data: Bytes): (n: nat)
    ensures n <= |cbs|
    ensures n == 0 <==> cbs == []
  {
    if cbs == [] then 0
    else if cbs[0](dir, data).Undecided? then 1 + InvokedCount(cbs[1..], dir, data)
    else 1
  }

  /** The result a deciding callback's answer stands for. */
  function Verdict(m: ModifyResult, data: Bytes): Option<Bytes>
  {
    match m
    case Replace(b) => Some(b)
    case DontSend => None
    case Undecided => Some(data)
  }

  /** The first deciding callback decides, and it is the last one awaited: those after it are never called. */
  lemma {:induction false} FirstDecisionWins(cbs: seq<ModifyCallback>, dir: DataDirection, data: Bytes, k: nat)
    requires k < |cbs| && !cbs[k](dir, data).Undecided?
    requires forall j :: 0 <= j < k ==> cbs[j](dir, data).Undecided?
    ensures ExecModifyCallbacks(cbs, dir, data) == Verdict(cbs[k](dir, data), data)
    ensures InvokedCount(cbs, dir, data) == k + 1
  {
    if k > 0 {
      assert forall j :: 0 <= j < k - 1 ==> cbs[1..][j] == cbs[j + 1];
      FirstDecisionWins(cbs[1..], dir, data, k - 1);
    }
  }

  /** When no callback decides, every one is awaited and the chunk goes on unchanged (also with no callbacks). */
  lemma {:induction false} UndecidedKeepsChunk(cbs: seq<ModifyCallback>, dir: DataDirection, data: Bytes)
    requires forall j :: 0 <= j < |cbs| ==> cbs[j](dir, data).Undecided?
    ensures ExecModifyCallbacks(cbs, dir, data) == Some(data)
    ensures InvokedCount(cbs, dir, data) == |cbs|
  {
    if cbs != [] {
      assert forall j :: 0 <= j < |cbs| - 1 ==> cbs[1..][j] == cbs[j + 1];
      UndecidedKeepsChunk(cbs[1..], dir, data);
    }
  }

  /** The events of awaiting the first `n` modify callbacks on one chunk. */
  function InvokedEvents(n: nat, dir: DataDirection, data: Bytes): (e: seq<Event>)
    ensures |e| == n && forall i :: 0 <= i < n ==> e[i] == Invoked(i, dir, data)
  {
    seq(n, i requires 0 <= i < n => Invoked(i, dir, data))
  }

  /** The loop of `_exec_modify_callbacks`, awaiting the callbacks in order and returning at the first decision. */
  method RunModifyCallbacks(cbs: seq<ModifyCallback>, dir: DataDirection, data: Bytes) returns (r: Option<Bytes>, invoked: seq<Event>)
    ensures r == ExecModifyCallbacks(cbs, dir, data)
    ensures invoked == InvokedEvents(InvokedCount(cbs, dir, data), dir, data)
  {
    invoked := [];
    var i := 0;
    while i < |cbs|
      invariant i <= |cbs|
      invariant forall j :: 0 <= j < i ==> cbs[j](dir, data).Undecided?
      invariant invoked == InvokedEvents(i, dir, data)
    {
      var result := cbs[i](dir, data);
      invoked := invoked + [Invoked(i, dir, data)];
      assert invoked == InvokedEvents(i + 1, dir, data);
      if !result.Undecided? {
        FirstDecisionWins(cbs, dir, data, i);
        return Verdict(result, data), invoked;
      }
      i := i + 1;
    }
    UndecidedKeepsChunk(cbs, dir, data);
    return Some(data), invoked;
  }

  /** `_callback(direction, data)`: one task per data callback, each given the original chunk. */
  function ObserverEvents(observers: seq<Server.HandlerId>, dir: DataDirection, data: Bytes): (e: seq<Event>)
    ensures |e| == |observers| && forall i :: 0 <= i < |observers| ==> e[i] == Scheduled(observers[i], dir, data)
  {
    seq(|observers|, i requires 0 <= i < |observers| => Scheduled(observers[i], dir, data))
  }

  /** The loop of `_callback`. */
  method ScheduleObservers(observers: seq<Server.HandlerId>, dir: DataDirection, data: Bytes) returns (scheduled: seq<Event>)
    ensures scheduled == ObserverEvents(observers, dir, data)
  {
    scheduled := [];
    for i := 0 to |observers|
      invariant scheduled == ObserverEvents(observers[..i], dir, data)
    {
      scheduled := scheduled + [Scheduled(observers[i], dir, data)];
      assert observers[..i + 1] == observers[..i] + [observers[i]];
    }
    assert observers[..|observers|] == observers;
  }

  /** What the pump writes for one chunk: the modify callbacks' verdict, nothing for a dropped chunk. */
  function ChunkOutput(cbs: seq<ModifyCallback>, dir: DataDirection, data: Bytes): (r: Bytes)
    ensures r != data ==> exists k :: 0 <= k < |cbs| && (cbs[k](dir, data) == DontSend || cbs[k](dir, data) == Replace(r))
  {
    match ExecModifyCallbacks(cbs, dir, data)
    case None => []
    case Some(b) => b
  }

  /** The events of one loop iteration: the observers scheduled, the modify callbacks awaited, and the write
      unless the chunk was dropped. */
  function ChunkEvents(observers: seq<Server.HandlerId>, cbs: seq<ModifyCallback>, observeDir: DataDirection,
                       modifyDir: DataDirection, data: Bytes): (e: seq<Event>)
    ensures |e| > 0
  {
    ObserverEvents(observers, observeDir, data)
    + InvokedEvents(InvokedCount(cbs, modifyDir, data), modifyDir, data)
    + match ExecModifyCallbacks(cbs, modifyDir, data)
      case None => []
      case Some(b) => [Written(b)]
  }

  /** Within one iteration every observer is scheduled once, with the chunk as read, before any modify callback
      runs; the awaited callbacks follow in order; the last event is the write exactly when the chunk is not dropped. */
  lemma ChunkEventsOrder(observers: seq<Server.HandlerId>, cbs: seq<ModifyCallback>, observeDir: DataDirection,
                         modifyDir: DataDirection, data: Bytes)
    ensures var e := ChunkEvents(observers, cbs, observeDir, modifyDir, data);
            var n := InvokedCount(cbs, modifyDir, data);
            var r := ExecModifyCallbacks(cbs, modifyDir, data);
            && |e| == |observers| + n + (if r.Some? then 1 else 0) > 0
            && e[..|observers|] == ObserverEvents(observers, observeDir, data)
            && (forall i :: 0 <= i < |e| ==> (e[i].Scheduled? <==> i < |observers|))
            && e[|observers|..|observers| + n] == InvokedEvents(n, modifyDir, data)
            && (r.None? <==> !e[|e| - 1].Written?)
            && (r.Some? ==> e[|e| - 1] == Written(r.value))
  {
  }

  /** The chunks the pump handles: those before the first empty read. */
  function LiveChunks(chunks: seq<Bytes>): (live: seq<Bytes>)
    ensures |live| <= |chunks|
    ensures forall i :: 0 <= i < |live| ==> live[i] == chunks[i] && live[i] != []
    ensures |live| < |chunks| ==> chunks[|live|] == []
  {
    if chunks == [] || chunks[0] == [] then [] else [chunks[0]] + LiveChunks(chunks[1..])
  }

  /** The chunks left unread once the pump has stopped: those after the first empty read. */
  function AfterEnd(chunks: seq<Bytes>): (rest: seq<Bytes>)
    ensures |LiveChunks(chunks)| < |chunks| ==> chunks == LiveChunks(chunks) + [[]] + rest
    ensures |LiveChunks(chunks)| == |chunks| ==> rest == []
  {
    if chunks == [] then []
    else if chunks[0] == [] then chunks[1..]
    else
      var rest := AfterEnd(chunks[1..]);
      assert chunks == [chunks[0]] + chunks[1..];
      rest
  }

  /** All the bytes one pump writes to the opposite side. */
  function Forwarded(cbs: seq<ModifyCallback>, dir: DataDirection, chunks: seq<Bytes>): (r: Bytes)
    ensures cbs == [] ==> r == Concat(LiveChunks(chunks))
  {
    if chunks == [] || chunks[0] == [] then []
    else ChunkOutput(cbs, dir, chunks[0]) + Forwarded(cbs, dir, chunks[1..])
  }

  /** Everything one pump does, chunk by chunk. */
  function PumpEvents(observers: seq<Server.HandlerId>, cbs: seq<ModifyCallback>, observeDir: DataDirection,
                      modifyDir: DataDirection, chunks: seq<Bytes>): (e: seq<Event>)
  {
    if chunks == [] || chunks[0] == [] then []
    else ChunkEvents(observers, cbs, observeDir, modifyDir, chunks[0]) + PumpEvents(observers, cbs, observeDir, modifyDir, chunks[1..])
  }

  /** The events of a loop are, in order, the events of each iteration over the chunks before the first
      empty read, so `ChunkEventsOrder` describes every stretch of them. */
  lemma {:induction false} PumpEventsAreConcatOfIterations(observers: seq<Server.HandlerId>, cbs: seq<ModifyCallback>,
                                                           observeDir: DataDirection, modifyDir: DataDirection, chunks: seq<Bytes>)
    ensures var live := LiveChunks(chunks);
            PumpEvents(observers, cbs, observeDir, modifyDir, chunks)
            == ConcatEvents(seq(|live|, i requires 0 <= i < |live| => ChunkEvents(observers, cbs, observeDir, modifyDir, live[i])))
  {
    var live := LiveChunks(chunks);
    var steps := seq(|live|, i requires 0 <= i < |live| => ChunkEvents(observers, cbs, observeDir, modifyDir, live[i]));
    if chunks != [] && chunks[0] != [] {
      PumpEventsAreConcatOfIterations(observers, cbs, observeDir, modifyDir, chunks[1..]);
      var tail := LiveChunks(chunks[1..]);
      var tailSteps := seq(|tail|, i requires 0 <= i < |tail| => ChunkEvents(observers, cbs, observeDir, modifyDir, tail[i]));
      assert live == [chunks[0]] + tail;
      assert forall i :: 0 <= i < |tail| ==> live[i + 1] == tail[i];
      assert forall i :: 0 <= i < |tail| ==> steps[1..][i] == tailSteps[i];
      assert steps[1..] == tailSteps;
    }
  }

  /** The concatenation of a sequence of event sequences. */
  function ConcatEvents(parts: seq<seq<Event>>): seq<Event>
  {
    if parts == [] then [] else parts[0] + ConcatEvents(parts[1..])
  }

  /** Every chunk before the first empty read leaves at least one event, and a pump that reads
      nothing but the end leaves none. */
  lemma {:induction false} PumpEventsCoverLiveChunks(observers: seq<Server.HandlerId>, cbs: seq<ModifyCallback>,
                                                     observeDir: DataDirection, modifyDir: DataDirection, chunks: seq<Bytes>)
    ensures var e := PumpEvents(observers, cbs, observeDir, modifyDir, chunks);
            |e| >= |LiveChunks(chunks)| && (e == [] <==> LiveChunks(chunks) == [])
  {
    if chunks != [] && chunks[0] != [] {
      PumpEventsCoverLiveChunks(observers, cbs, observeDir, modifyDir, chunks[1..]);
    }
  }

  /** The concatenation of a sequence of byte strings. */
  function Concat(parts: seq<Bytes>): Bytes
  {
    if parts == [] then [] else parts[0] + Concat(parts[1..])
  }

  /** The pump writes the in-order concatenation of the per-chunk results of the chunks before the first empty read. */
  lemma {:induction false} ForwardedIsConcatOfOutputs(cbs: seq<ModifyCallback>, dir: DataDirection, chunks: seq<Bytes>)
    ensures var live := LiveChunks(chunks);
            Forwarded(cbs, dir, chunks) == Concat(seq(|live|, i requires 0 <= i < |live| => ChunkOutput(cbs, dir, live[i])))
  {
    var live := LiveChunks(chunks);
    var outputs := seq(|live|, i requires 0 <= i < |live| => ChunkOutput(cbs, dir, live[i]));
    if chunks != [] && chunks[0] != [] {
      ForwardedIsConcatOfOutputs(cbs, dir, chunks[1..]);
      var tail := LiveChunks(chunks[1..]);
      var tailOutputs := seq(|tail|, i requires 0 <= i < |tail| => ChunkOutput(cbs, dir, tail[i]));
      assert live == [chunks[0]] + tail;
      assert forall i :: 0 <= i < |tail| ==> live[i + 1] == tail[i];
      assert forall i :: 0 <= i < |tail| ==> outputs[1..][i] == tailOutputs[i];
      assert outputs[1..] == tailOutputs;
    }
  }

  /** Nothing after the first empty read is ever forwarded. */
  lemma {:induction false} NothingForwardedAfterEnd(cbs: seq<ModifyCallback>, dir: DataDirection, sent: seq<Bytes>, later: seq<Bytes>)
    requires forall i :: 0 <= i < |sent| ==> sent[i] != []
    ensures Forwarded(cbs, dir, sent + [[]] + later) == Forwarded(cbs, dir, sent)
  {
    if sent != [] {
      assert (sent + [[]] + later)[1..] == sent[1..] + [[]] + later;
      NothingForwardedAfterEnd(cbs, dir, sent[1..], later);
    } else {
      assert (sent + [[]] + later)[0] == [];
    }
  }

  /** Chunks forwarded one after the other: the output of a run splits at any chunk boundary before the end. */
  lemma {:induction false} ForwardedAppend(cbs: seq<ModifyCallback>, dir: DataDirection, first: seq<Bytes>, second: seq<Bytes>)
    requires forall i :: 0 <= i < |first| ==> first[i] != []
    ensures Forwarded(cbs, dir, first + second) == Forwarded(cbs, dir, first) + Forwarded(cbs, dir, second)
  {
    if first == [] {
      assert first + second == second;
    } else {
      assert (first + second)[1..] == first[1..] + second;
      ForwardedAppend(cbs, dir, first[1..], second);
      AppendAssociative(ChunkOutput(cbs, dir, first[0]), Forwarded(cbs, dir, first[1..]), Forwarded(cbs, dir, second));
    }
  }

  /** A chunk some callback drops contributes nothing, and the chunks after it are still forwarded. */
  lemma DroppedChunkSkipped(cbs: seq<ModifyCallback>, dir: DataDirection, chunk: Bytes, later: seq<Bytes>)
    requires chunk != [] && ExecModifyCallbacks(cbs, dir, chunk).None?
    ensures Forwarded(cbs, dir, [chunk] + later) == Forwarded(cbs, dir, later)
  {
    assert ([chunk] + later)[1..] == later;
  }

  /** The body of one direction's loop for a chunk just read: schedule the observers, run the modify
      callbacks, write the result unless it was dropped. */
  method HandleChunk(sink: Writer, observers: seq<Server.HandlerId>, cbs: seq<ModifyCallback>,
                     observeDir: DataDirection, modifyDir: DataDirection, data: Bytes) returns (step: seq<Event>)
    modifies sink
    ensures sink.data == old(sink.data) + ChunkOutput(cbs, modifyDir, data)
    ensures sink.closed == old(sink.closed)
    ensures step == ChunkEvents(observers, cbs, observeDir, modifyDir, data)
  {
    var scheduled := ScheduleObservers(observers, observeDir, data);
    var result, invoked := RunModifyCallbacks(cbs, modifyDir, data);
    step := scheduled + invoked;
    if result.Some? {
      sink.Write(result.value);
      step := step + [Written(result.value)];
    }
  }

  /** One direction's loop (`_client_to_dst`, `_dst_to_client`): read a chunk, schedule the observers,
      run the modify callbacks, write the result unless it was dropped; on an empty read, close the sink. */
  method Pump(source: ChunkReader, sink: Writer, observers: seq<Server.HandlerId>, cbs: seq<ModifyCallback>,
              observeDir: DataDirection, modifyDir: DataDirection) returns (events: seq<Event>)
    requires source.Valid()
    modifies source, sink
    ensures source.Valid()
    ensures sink.data == old(sink.data) + Forwarded(cbs, modifyDir, old(source.Remaining()))
    ensures sink.closed
    ensures source.Remaining() == AfterEnd(old(source.Remaining()))
    ensures events == PumpEvents(observers, cbs, observeDir, modifyDir, old(source.Remaining()))
  {
    ghost var chunks := source.Remaining();
    ghost var written := sink.data;
    events := [];
    var data := source.Read();
    PumpStep(observers, cbs, observeDir, modifyDir, chunks, data, source.Remaining());
    while data != []
      invariant source.Valid()
      invariant written + Forwarded(cbs, modifyDir, chunks) == sink.data + Forwarded(cbs, modifyDir, [data] + source.Remaining())
      invariant PumpEvents(observers, cbs, observeDir, modifyDir, chunks)
             == events + PumpEvents(observers, cbs, observeDir, modifyDir, [data] + source.Remaining())
      invariant AfterEnd(chunks) == AfterEnd([data] + source.Remaining())
      decreases |source.Remaining()| + (if data == [] then 0 else 1)
    {
      ghost var remaining := source.Remaining();
      PumpIteration(observers, cbs, observeDir, modifyDir, data, remaining);
      ghost var before := sink.data;
      var step := HandleChunk(sink, observers, cbs, observeDir, modifyDir, data);
      AppendAssociative(events, step, PumpEvents(observers, cbs, observeDir, modifyDir, remaining));
      AppendAssociative(before, ChunkOutput(cbs, modifyDir, data), Forwarded(cbs, modifyDir, remaining));
      events := events + step;
      assert written + Forwarded(cbs, modifyDir, chunks) == sink.data + Forwarded(cbs, modifyDir, remaining);
      assert PumpEvents(observers, cbs, observeDir, modifyDir, chunks) == events + PumpEvents(observers, cbs, observeDir, modifyDir, remaining);
      data := source.Read();
      PumpStep(observers, cbs, observeDir, modifyDir, remaining, data, source.Remaining());
    }
    sink.Close();
  }

  /** One iteration of the pump on a non-empty chunk `data` followed by the unread chunks. */
  lemma PumpIteration(observers: seq<Server.HandlerId>, cbs: seq<ModifyCallback>, observeDir: DataDirection,
                      modifyDir: DataDirection, data: Bytes, rest: seq<Bytes>)
    requires data != []
    ensures Forwarded(cbs, modifyDir, [data] + rest) == ChunkOutput(cbs, modifyDir, data) + Forwarded(cbs, modifyDir, rest)
    ensures PumpEvents(observers, cbs, observeDir, modifyDir, [data] + rest)
         == ChunkEvents(observers, cbs, observeDir, modifyDir, data) + PumpEvents(observers, cbs, observeDir, modifyDir, rest)
    ensures AfterEnd([data] + rest) == AfterEnd(rest)
  {
    assert ([data] + rest)[1..] == rest;
  }

  /** A read splits the unread chunks into the chunk returned and the rest; past the end it returns the empty chunk. */
  lemma PumpStep(observers: seq<Server.HandlerId>, cbs: seq<ModifyCallback>, observeDir: DataDirection,
                 modifyDir: DataDirection, chunks: seq<Bytes>, data: Bytes, rest: seq<Bytes>)
    requires chunks == [] ==> data == [] && rest == []
    requires chunks != [] ==> data == chunks[0] && rest == chunks[1..]
    ensures Forwarded(cbs, modifyDir, chunks) == Forwarded(cbs, modifyDir, [data] + rest)
    ensures PumpEvents(observers, cbs, observeDir, modifyDir, chunks) == PumpEvents(observers, cbs, observeDir, modifyDir, [data] + rest)
    ensures AfterEnd(chunks) == AfterEnd([data] + rest)
  {
    if chunks != [] {
      assert chunks == [data] + rest;
    }
  }

  /** `ClientDstRelay`: the client's and the destination's streams, and the two callback lists it was given. */
  class ClientDstRelay {
    const clientReader: ChunkReader
    const clientWriter: Writer
    const dstReader: ChunkReader
    const dstWriter: Writer
    const dataCallbacks: seq<Server.HandlerId>
    const modifyCallbacks: seq<ModifyCallback>

    constructor (clientReader: ChunkReader, clientWriter: Writer, dstReader: ChunkReader, dstWriter: Writer,
                 dataCallbacks: seq<Server.HandlerId>, modifyCallbacks: seq<ModifyCallback>)
      ensures this.clientReader == clientReader && this.clientWriter == clientWriter
      ensures this.dstReader == dstReader && this.dstWriter == dstWriter
      ensures this.dataCallbacks == dataCallbacks && this.modifyCallbacks == modifyCallbacks
    {
      this.clientReader := clientReader;
      this.clientWriter := clientWriter;
      this.dstReader := dstReader;
      this.dstWriter := dstWriter;
      this.dataCallbacks := dataCallbacks;
      this.modifyCallbacks := modifyCallbacks;
    }

    /** `_client_to_dst`. */
    method ClientToDst() returns (events: seq<Event>)
      requires clientReader.Valid()
      modifies clientReader, dstWriter
      ensures clientReader.Valid()
      ensures dstWriter.data == old(dstWriter.data) + Forwarded(modifyCallbacks, DataDirection.ClientToDst, old(clientReader.Remaining()))
      ensures dstWriter.closed
      ensures clientReader.Remaining() == AfterEnd(old(clientReader.Remaining()))
      ensures events == PumpEvents(dataCallbacks, modifyCallbacks, DataDirection.ClientToDst, DataDirection.ClientToDst, old(clientReader.Remaining()))
    {
      events := Pump(clientReader, dstWriter, dataCallbacks, modifyCallbacks, DataDirection.ClientToDst, DataDirection.ClientToDst);
    }

    /** `_dst_to_client` as written: the observers are told DST_TO_CLIENT, the modify callbacks CLIENT_TO_DST. */
    method DstToClient() returns (events: seq<Event>)
      requires dstReader.Valid()
      modifies dstReader, clientWriter
      ensures dstReader.Valid()
      ensures clientWriter.data == old(clientWriter.data) + Forwarded(modifyCallbacks, DataDirection.ClientToDst, old(dstReader.Remaining()))
      ensures clientWriter.closed
      ensures dstReader.Remaining() == AfterEnd(old(dstReader.Remaining()))
      ensures events == PumpEvents(dataCallbacks, modifyCallbacks, DataDirection.DstToClient, DataDirection.ClientToDst, old(dstReader.Remaining()))
    {
      events := Pump(dstReader, clientWriter, dataCallbacks, modifyCallbacks, DataDirection.DstToClient, DataDirection.ClientToDst);
    }

    /** `_dst_to_client` as evidently intended: the modify callbacks are told DST_TO_CLIENT too. */
    method DstToClientCorrected() returns (events: seq<Event>)
      requires dstReader.Valid()
      modifies dstReader, clientWriter
      ensures dstReader.Valid()
      ensures clientWriter.data == old(clientWriter.data) + Forwarded(modifyCallbacks, DataDirection.DstToClient, old(dstReader.Remaining()))
      ensures clientWriter.closed
      ensures dstReader.Remaining() == AfterEnd(old(dstReader.Remaining()))
      ensures events == PumpEvents(dataCallbacks, modifyCallbacks, DataDirection.DstToClient, DataDirection.DstToClient, old(dstReader.Remaining()))
    {
      events := Pump(dstReader, clientWriter, dataCallbacks, modifyCallbacks, DataDirection.DstToClient, DataDirection.DstToClient);
    }
  }

  /** A modify callback that drops everything the destination sends. */
  function DropFromDst(dir: DataDirection, data: Bytes): ModifyResult
  {
    if dir == DstToClient then DontSend else Undecided
  }

  /** As written, a callback that drops destination-to-client traffic lets a destination chunk through,
      because it is told the chunk travels from the client; with the direction corrected the chunk is dropped. */
  lemma MislabelledDirectionForwardsFilteredChunk(chunk: Bytes)
    requires chunk != []
    ensures Forwarded([DropFromDst], ClientToDst, [chunk]) == chunk
    ensures Forwarded([DropFromDst], DstToClient, [chunk]) == []
  {
    var cbs: seq<ModifyCallback> := [DropFromDst];
    assert cbs[1..] == [];
    assert [chunk][1..] == [];
  }
}
