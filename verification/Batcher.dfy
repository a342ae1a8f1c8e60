/** The batcher's objects: channel builder, channel and channel manager, updated in place. Every method
    is proved to do what the corresponding function of `Channels` and `Manager` says. */
module Batcher {
  import opened Words
  import opened Channels
  import Manager

  // ------------------------------------------------------------------ channel_builder.go

  class ChannelBuilder {
    const id: nat
    const cfg: Config
    const z: Compressor
    // the earliest deadline; 0 for none
    var timeout: u64
    // what that deadline is for
    var timeoutReason: Reason
    // why no more blocks are taken, once that is so
    var fullErr: Option<Reason>
    // the channel out: closed or not, bytes handed out, next frame number
    var closed: bool
    var taken: nat
    var frameNumber: nat
    // given back if the channel times out
    var blocks: seq<Block>
    // frames waiting for a transaction
    var frames: seq<Frame>
    // one more than the last frame's number
    var numFrames: nat
    // as many as the channel out has handed out
    var outputBytes: nat

    ghost var produced: seq<Bytes>
    ghost var heads: seq<u64>
    ghost var deadlines: seq<u64>

    ghost function Value(): Builder
      reads this
    {
      Builder(id, blocks, timeout, timeoutReason, fullErr, closed, frames, produced, heads, deadlines)
    }

    /** The counters agree with the frames created, which carry bytes the channel out has produced. */
    ghost predicate Ok()
      reads this
    {
      && taken == outputBytes == |Flat(produced)| && frameNumber == numFrames == |produced|
      && Flat(produced) <= z.stream(blocks, closed)
      && cfg.maxFrameSize > FRAME_OVERHEAD && Steady(z)
    }

    constructor (id: nat, cfg: Config, z: Compressor)
      requires cfg.maxFrameSize > FRAME_OVERHEAD && Steady(z)
      ensures Ok() && Value() == NewBuilder(id) && this.id == id && this.cfg == cfg && this.z == z
    {
      this.id, this.cfg, this.z := id, cfg, z;
      timeout, timeoutReason, fullErr := 0, CompressorFull, None;
      closed, taken, frameNumber := false, 0, 0;
      blocks, frames, numFrames, outputBytes := [], [], 0, 0;
      produced, heads, deadlines := [], [], [];
    }

    function ReadyBytes(): int
      reads this
    {
      |z.stream(blocks, closed)| - taken
    }

    /** AddBlock. A block the channel has no room for marks the channel full and is not added. */
    method AddBlock(block: Block) returns (added: Added)
      requires Ok() && !closed
      modifies this
      ensures Ok() && (Value(), added) == Channels.AddBlock(old(Value()), cfg, z, block)
    {
      hide Flat;
      if fullErr.Some? {
        return FullError;
      }
      var accept := z.accept(blocks, block);
      if accept == TooFull {
        fullErr := Some(CompressorFull);
        return FullError;
      } else if accept == Bad {
        return OtherError;
      }
      assert z.stream(blocks, false) <= z.stream(blocks + [block], false);
      blocks := blocks + [block];
      UpdateTimeout((block.epoch as int + cfg.seqWindowSize - cfg.subSafetyMargin) % W64, SeqWindowClose);
      if z.full(blocks) {
        // the block is in: only the next one finds the channel full
        fullErr := Some(CompressorFull);
      }
      added := Taken;
    }

    method UpdateTimeout(deadline: u64, reason: Reason)
      requires Ok()
      modifies this`timeout, this`timeoutReason, this`deadlines
      ensures Ok() && Value() == Channels.UpdateTimeout(old(Value()), deadline, reason)
    {
      deadlines := deadlines + [deadline];
      if timeout == 0 || timeout > deadline {
        timeout := deadline;
        timeoutReason := reason;
      }
    }

    method RegisterL1Block(l1Block: u64)
      requires Ok()
      modifies this`timeout, this`timeoutReason, this`heads, this`deadlines, this`fullErr
      ensures Ok() && Value() == Channels.RegisterL1Block(old(Value()), cfg, l1Block)
    {
      hide Flat, Steady;
      heads := heads + [l1Block];
      if cfg.maxChannelDuration != 0 {
        UpdateTimeout((l1Block as int + cfg.maxChannelDuration) % W64, MaxDurationReached);
      }
      if fullErr.None? && timeout != 0 && l1Block >= timeout {
        fullErr := Some(timeoutReason);
      }
    }

    method FramePublished(inclusion: u64)
      requires Ok()
      modifies this`timeout, this`timeoutReason, this`deadlines
      ensures Ok() && Value() == Channels.FramePublished(old(Value()), cfg, inclusion)
    {
      UpdateTimeout((inclusion as int + cfg.channelTimeout - cfg.subSafetyMargin) % W64, ChannelTimeoutClose);
    }

    /** The channel out's OutputFrame and the bookkeeping around it; last is io.EOF. */
    method OutputFrame() returns (last: bool)
      requires Ok()
      modifies this`frames, this`produced, this`taken, this`frameNumber, this`numFrames, this`outputBytes
      ensures Ok() && (Value(), last) == Channels.OutputFrame(old(Value()), cfg, z)
    {
      var readyBytes := ReadyBytes();
      var maxDataSize := cfg.maxFrameSize - FRAME_OVERHEAD;
      last := false;
      if maxDataSize > readyBytes {
        maxDataSize := readyBytes;
        // closed, and not spilling past the current frame: the final frame of the channel
        last := closed;
      }
      var data := z.stream(blocks, closed)[taken..taken + maxDataSize];
      AppendFrame(data);
    }

    method AppendFrame(data: Bytes)
      requires Ok() && taken + |data| <= |z.stream(blocks, closed)|
      requires data == z.stream(blocks, closed)[taken..taken + |data|]
      modifies this`frames, this`produced, this`taken, this`frameNumber, this`numFrames, this`outputBytes
      ensures Ok()
      ensures Value() == old(Value()).(frames := old(frames) + [Frame(TxId(id, |old(produced)|), data)], produced := old(produced) + [data])
    {
      hide Steady, Flat;
      NextBytes(produced, z.stream(blocks, closed), |data|);
      taken := taken + |data|;
      frames := frames + [Frame(TxId(id, frameNumber), data)];
      frameNumber := frameNumber + 1;
      produced := produced + [data];
      numFrames := numFrames + 1;
      outputBytes := outputBytes + |data|;
    }

    /** OutputFrames: ready frames of an open channel, or everything that is left of a full one. */
    method OutputFrames()
      requires Ok() && !closed
      modifies this
      ensures Ok() && Ready(old(Value()), z) >= 0 && Ready(old(Value()).(closed := true), z) >= 0
      ensures Some(Value()) == Channels.OutputFrames(old(Value()), cfg, z)
    {
      assert z.stream(blocks, false) <= z.stream(blocks, true);
      if fullErr.Some? {
        CloseAndOutputAllFrames();
      } else {
        OutputReadyFrames();
      }
    }

    method OutputReadyFrames()
      requires Ok()
      modifies this`frames, this`produced, this`taken, this`frameNumber, this`numFrames, this`outputBytes
      ensures Ok() && Value() == OutputReady(old(Value()), cfg, z)
    {
      while ReadyBytes() >= cfg.maxFrameSize
        invariant Ok() && OutputReady(Value(), cfg, z) == OutputReady(old(Value()), cfg, z)
        decreases ReadyBytes()
      {
        FrameProgress(Value(), cfg, z);
        var _ := OutputFrame();
      }
    }

    method CloseAndOutputAllFrames()
      requires Ok() && !closed && z.stream(blocks, false) <= z.stream(blocks, true)
      modifies this`closed, this`frames, this`produced, this`taken, this`frameNumber, this`numFrames, this`outputBytes
      ensures Ok() && Ready(old(Value()).(closed := true), z) >= 0
      ensures Value() == OutputAll(old(Value()).(closed := true), cfg, z)
    {
      closed := true;
      PrefixTrans(Flat(produced), z.stream(blocks, false), z.stream(blocks, true));
      var last := false;
      while !last
        invariant Ok() && closed && blocks == old(blocks)
        invariant if last then Value() == OutputAll(old(Value()).(closed := true), cfg, z)
                  else OutputAll(Value(), cfg, z) == OutputAll(old(Value()).(closed := true), cfg, z)
        decreases !last, ReadyBytes()
      {
        FrameProgress(Value(), cfg, z);
        last := OutputFrame();
      }
    }

    method NextFrame() returns (f: Frame)
      requires Ok() && frames != []
      modifies this`frames
      ensures Ok() && f == old(frames[0]) && Value() == old(Value()).(frames := old(frames[1..]))
    {
      f := frames[0];
      frames := frames[1..];
    }

    method PushFrame(frame: Frame)
      requires Ok() && frame.id.channel == id
      modifies this`frames
      ensures Ok() && Value() == old(Value()).(frames := old(frames) + [frame])
    {
      frames := frames + [frame];
    }
  }

  /** The next n bytes of the stream extend the frames' bytes. */
  lemma NextBytes(produced: seq<Bytes>, stream: Bytes, n: nat)
    requires Flat(produced) <= stream && |Flat(produced)| + n <= |stream|
    ensures var data := stream[|Flat(produced)|..|Flat(produced)| + n];
            Flat(produced + [data]) == Flat(produced) + data && Flat(produced + [data]) <= stream
  {
    FlatAppend(produced, stream[|Flat(produced)|..|Flat(produced)| + n]);
  }

  // ------------------------------------------------------------------ channel.go

  class PendingChannel {
    const id: nat
    const cfg: Config
    const z: Compressor
    const channelBuilder: ChannelBuilder
    // a failed one gives its frame back
    var pendingTransactions: map<TxId, Frame>
    // with inclusion blocks
    var confirmedTransactions: map<TxId, u64>

    ghost function Value(): Channel
      reads this, channelBuilder
    {
      Channel(channelBuilder.Value(), pendingTransactions, confirmedTransactions)
    }

    ghost predicate Ok()
      reads this, channelBuilder
    {
      channelBuilder.Ok() && channelBuilder.id == id && channelBuilder.cfg == cfg && channelBuilder.z == z
    }

    constructor (id: nat, cfg: Config, z: Compressor)
      requires cfg.maxFrameSize > FRAME_OVERHEAD && Steady(z)
      ensures Ok() && Value() == NewChannel(id) && fresh(channelBuilder)
      ensures this.id == id && this.cfg == cfg && this.z == z
    {
      this.id, this.cfg, this.z := id, cfg, z;
      channelBuilder := new ChannelBuilder(id, cfg, z);
      pendingTransactions, confirmedTransactions := map[], map[];
    }

    method TxFailed(tx: TxId)
      requires Ok() && ChannelValid(Value(), z)
      modifies this`pendingTransactions, channelBuilder
      ensures Ok() && Value() == Channels.TxFailed(old(Value()), tx)
    {
      if tx in pendingTransactions {
        Manager.PendingOwn(Value(), z);
        channelBuilder.PushFrame(pendingTransactions[tx]);
        pendingTransactions := pendingTransactions - {tx};
      }
    }

    /** The verdict says whether the channel timed out, is done, or neither. */
    method TxConfirmed(tx: TxId, inclusion: u64) returns (verdict: Verdict)
      requires Ok()
      modifies this, channelBuilder
      ensures Ok() && (Value(), verdict) == Channels.TxConfirmed(old(Value()), cfg, tx, inclusion)
    {
      if tx !in pendingTransactions {
        return Ignored;
      }
      pendingTransactions := pendingTransactions - {tx};
      confirmedTransactions := confirmedTransactions[tx := inclusion];
      channelBuilder.FramePublished(inclusion);
      var timedOut := IsTimedOut();
      if timedOut {
        return TimedOutChannel;
      }
      if IsFullySubmitted() {
        return Done;
      }
      verdict := Open;
    }

    /** Whether the first and the last inclusion block are at least the channel timeout apart. */
    method IsTimedOut() returns (r: bool)
      ensures r <==> SpanReached(confirmedTransactions, cfg.channelTimeout)
    {
      if confirmedTransactions == map[] {
        return false;
      }
      // the ends of the span
      var min, max := W64 - 1, 0;
      var left := confirmedTransactions.Keys;
      while left != {}
        invariant left <= confirmedTransactions.Keys
        invariant forall t :: t in confirmedTransactions && t !in left ==> min <= confirmedTransactions[t] <= max
        invariant left != confirmedTransactions.Keys ==>
          (exists t :: t in confirmedTransactions && confirmedTransactions[t] == min)
          && (exists t :: t in confirmedTransactions && confirmedTransactions[t] == max)
        invariant left == confirmedTransactions.Keys ==> min == W64 - 1 && max == 0
        decreases |left|
      {
        var t :| t in left;
        left := left - {t};
        var number := confirmedTransactions[t];
        if number < min {
          min := number;
        }
        if number > max {
          max := number;
        }
        assert min == number || exists s :: s in confirmedTransactions && confirmedTransactions[s] == min;
        assert max == number || exists s :: s in confirmedTransactions && confirmedTransactions[s] == max;
      }
      r := max - min >= cfg.channelTimeout;
    }

    predicate IsFullySubmitted()
      reads this, channelBuilder
    {
      channelBuilder.fullErr.Some? && |pendingTransactions| + |channelBuilder.frames| == 0
    }

    method NextTxData() returns (f: Frame)
      requires Ok() && channelBuilder.frames != []
      modifies this`pendingTransactions, channelBuilder
      ensures Ok() && (Value(), f) == Channels.NextTxData(old(Value()))
    {
      f := channelBuilder.NextFrame();
      pendingTransactions := pendingTransactions[f.id := f];
    }
  }

  // ------------------------------------------------------------------ channel_manager.go

  class ChannelManager {
    const cfg: Config
    const z: Compressor
    // waiting for a channel
    var blocks: seq<Block>
    // 0 before the first block
    var tip: nat
    // the one channel that may be open
    var currentChannel: PendingChannel?
    // oldest first
    var channelQueue: seq<PendingChannel>
    // where each pending transaction's frame came from
    var txChannels: map<TxId, PendingChannel>

    // every channel created since the last Clear, by id; those fully submitted
    ghost var created: map<nat, PendingChannel>
    ghost var submitted: seq<nat>
    // the objects of the created channels
    ghost var Owned: set<PendingChannel>
    ghost var Builders: set<ChannelBuilder>

    ghost predicate IsCreated(c: PendingChannel)
      reads this`created
    {
      c.id in created && created[c.id] == c
    }

    /** References name channels by their ids, and distinct channels share nothing. */
    ghost predicate Linked()
      reads this`created, this`currentChannel, this`channelQueue, this`txChannels, this`Owned, this`Builders, Owned, Builders
    {
      CreatedOk() && CurrentOk() && QueueOk() && TxOk()
    }

    ghost predicate CreatedOk()
      reads this`created, this`Owned, this`Builders, Owned, Builders
    {
      forall id :: id in created ==>
        && created[id] in Owned && created[id].channelBuilder in Builders
        && created[id].id == id && created[id].cfg == cfg && created[id].z == z && created[id].Ok()
    }

    ghost predicate CurrentOk()
      reads this`created, this`currentChannel
    {
      currentChannel != null ==> IsCreated(currentChannel)
    }

    ghost predicate QueueOk()
      reads this`created, this`channelQueue
    {
      forall i :: 0 <= i < |channelQueue| ==> IsCreated(channelQueue[i])
    }

    ghost predicate TxOk()
      reads this`created, this`txChannels
    {
      forall t :: t in txChannels ==> IsCreated(txChannels[t])
    }

    ghost function Value(): Manager.State
      requires CreatedOk()
      reads this, Owned, Builders
    {
      Manager.State(blocks, tip, CurrentId(), QueueIds(), TxIds(), ChannelValues(), submitted)
    }

    ghost function CurrentId(): Option<nat>
      reads this`currentChannel
    {
      if currentChannel == null then None else Some(currentChannel.id)
    }

    static ghost function Ids(queue: seq<PendingChannel>): (ids: seq<nat>)
      ensures |ids| == |queue| && forall i :: 0 <= i < |ids| ==> ids[i] == queue[i].id
    {
      seq(|queue|, i requires 0 <= i < |queue| => queue[i].id)
    }

    ghost function QueueIds(): (ids: seq<nat>)
      reads this`channelQueue
      ensures |ids| == |channelQueue| && forall i :: 0 <= i < |ids| ==> ids[i] == channelQueue[i].id
    {
      Ids(channelQueue)
    }

    ghost function TxIds(): map<TxId, nat>
      reads this`txChannels
    {
      map t | t in txChannels :: txChannels[t].id
    }

    ghost function ChannelValues(): map<nat, Channel>
      requires CreatedOk()
      reads this`created, this`Owned, this`Builders, Owned, Builders
    {
      map id | id in created :: created[id].Value()
    }

    constructor (cfg: Config, z: Compressor)
      ensures Linked() && Value() == Manager.EMPTY && this.cfg == cfg && this.z == z
    {
      this.cfg, this.z := cfg, z;
      blocks, tip, currentChannel, channelQueue, txChannels := [], 0, null, [], map[];
      created, submitted, Owned, Builders := map[], [], {}, {};
    }

    /** Clear forgets everything, receipts still to come included. */
    method Clear()
      modifies this
      ensures Linked() && Value() == Manager.EMPTY
    {
      blocks := [];
      tip := 0;
      currentChannel := null;
      channelQueue := [];
      txChannels := map[];
      created, submitted, Owned, Builders := map[], [], {}, {};
    }

    /** Adds an L2 block to the internal blocks queue; false for a block that does not extend the tip. */
    method AddL2Block(block: Block) returns (ok: bool)
      requires Linked()
      modifies this`blocks, this`tip
      ensures Linked() && (Value(), ok) == Manager.AddL2Block(old(Value()), block)
    {
      hide CreatedOk, QueueOk, TxOk, CurrentOk, QueueIds, TxIds, ChannelValues, CurrentId;
      if tip != 0 && tip != block.parentHash {
        return false;
      }
      blocks := blocks + [block];
      tip := block.hash;
      ok := true;
    }

    /** A method of one channel changes that channel's value and no other's. */
    twostate lemma OnlyChannel(c: PendingChannel)
      requires old(Linked()) && old(IsCreated(c)) && unchanged(this) && c.Ok()
      requires forall id :: id in created && id != c.id ==> unchanged(created[id]) && unchanged(created[id].channelBuilder)
      ensures Linked() && Value() == old(Value()).(channels := old(Value()).channels[c.id := c.Value()])
    {
      forall id | id in created && id != c.id
        ensures created[id].Ok() && created[id].Value() == old(created[id].Value())
      {
      }
      assert ChannelValues() == old(ChannelValues())[c.id := c.Value()];
    }

    /** What the index says about a transaction. */
    lemma Lookup(tx: TxId)
      requires Linked()
      ensures tx in txChannels <==> tx in Value().txChannels
      ensures tx in txChannels ==> IsCreated(txChannels[tx]) && txChannels[tx].id == Value().txChannels[tx]
    {
    }

    lemma ValueOf(c: PendingChannel)
      requires Linked() && IsCreated(c)
      ensures c.id in Value().channels && Value().channels[c.id] == c.Value()
      ensures c.Ok() && c.cfg == cfg && c.z == z
      ensures c in Owned && c.channelBuilder in Builders
    {
    }

    method DropTx(tx: TxId)
      requires Linked()
      modifies this`txChannels
      ensures Linked() && Value() == old(Value()).(txChannels := old(Value()).txChannels - {tx})
    {
      hide CreatedOk, QueueOk, CurrentOk, QueueIds, ChannelValues, CurrentId;
      txChannels := txChannels - {tx};
      assert TxIds() == old(TxIds()) - {tx};
    }

    method FailIn(c: PendingChannel, tx: TxId)
      requires Linked() && IsCreated(c) && ChannelValid(c.Value(), z)
      modifies c`pendingTransactions, c.channelBuilder
      ensures Linked()
      ensures Value() == old(Value()).(channels := old(Value()).channels[c.id := Channels.TxFailed(old(c.Value()), tx)])
    {
      hide ChannelValid, Channels.TxFailed;
      c.TxFailed(tx);
      OnlyChannel(c);
    }

    /** Records a transaction as failed; its frame goes back to its channel's queue. */
    method TxFailed(tx: TxId)
      requires Linked() && Manager.Valid(Value(), cfg, z)
      modifies this`txChannels, Owned, Builders
      ensures Linked() && Value() == Manager.TxFailed(old(Value()), tx)
    {
      hide CreatedOk, QueueOk, TxOk, CurrentOk, QueueIds, TxIds, ChannelValues, CurrentId, ChannelValid, Channels.TxFailed;
      Lookup(tx);
      if tx in txChannels {
        var c := txChannels[tx];
        ValueOf(c);
        DropTx(tx);
        ValueOf(c);
        FailIn(c, tx);
      }
    }

    method ConfirmIn(c: PendingChannel, tx: TxId, inclusion: u64) returns (verdict: Verdict)
      requires Linked() && IsCreated(c)
      modifies c, c.channelBuilder
      ensures Linked()
      ensures verdict == Channels.TxConfirmed(old(c.Value()), cfg, tx, inclusion).1
      ensures Value() == old(Value()).(channels := old(Value()).channels[c.id := Channels.TxConfirmed(old(c.Value()), cfg, tx, inclusion).0])
    {
      hide Channels.TxConfirmed;
      verdict := c.TxConfirmed(tx, inclusion);
      OnlyChannel(c);
    }

    /** Records a transaction as confirmed on L1. A channel that timed out gives its blocks back; one that
        timed out or is done leaves the queue. */
    method TxConfirmed(tx: TxId, inclusion: u64)
      requires Linked() && Manager.Valid(Value(), cfg, z)
      modifies this, Owned, Builders
      ensures Linked() && Value() == Manager.TxConfirmed(old(Value()), cfg, tx, inclusion)
    {
      hide CreatedOk, QueueOk, TxOk, CurrentOk, QueueIds, TxIds, ChannelValues, CurrentId, ChannelValid, Channels.TxConfirmed, Manager.Settle;
      Lookup(tx);
      if tx in txChannels {
        var c := txChannels[tx];
        ValueOf(c);
        DropTx(tx);
        ValueOf(c);
        var verdict := ConfirmIn(c, tx, inclusion);
        ValueOf(c);
        Settle(c, verdict);
      }
    }

    /** A channel that timed out gives its blocks back; one that is done is noted. Both leave the queue. */
    method Settle(c: PendingChannel, verdict: Verdict)
      requires Linked() && IsCreated(c) && c.id in Value().channels
      modifies this
      ensures Linked() && Value() == Manager.Settle(old(Value()), c.id, verdict)
    {
      hide CreatedOk, QueueOk, TxOk, CurrentOk, QueueIds, TxIds, ChannelValues, CurrentId, Manager.Remove;
      ValueOf(c);
      if verdict == TimedOutChannel {
        assert c.Value().builder.blocks == c.channelBuilder.blocks;
        PutBack(c.channelBuilder.blocks);
        RemovePendingChannel(c);
      } else if verdict == Done {
        NoteSubmitted(c.id);
        RemovePendingChannel(c);
      }
    }

    method PutBack(more: seq<Block>)
      requires Linked()
      modifies this`blocks
      ensures Linked() && Value() == old(Value()).(blocks := more + old(blocks))
    {
      hide CreatedOk, QueueOk, TxOk, CurrentOk, QueueIds, TxIds, ChannelValues, CurrentId;
      blocks := more + blocks;
    }

    ghost method NoteSubmitted(id: nat)
      requires Linked()
      modifies this`submitted
      ensures Linked() && Value() == old(Value()).(submitted := old(submitted) + [id])
    {
      hide CreatedOk, QueueOk, TxOk, CurrentOk, QueueIds, TxIds, ChannelValues, CurrentId;
      submitted := submitted + [id];
    }

    static method IndexOf(queue: seq<PendingChannel>, c: PendingChannel) returns (index: int)
      ensures -1 <= index < |queue| && (index >= 0 ==> queue[index] == c)
      ensures forall j :: 0 <= j < (if index >= 0 then index else |queue|) ==> queue[j] != c
    {
      for i := 0 to |queue|
        invariant forall j :: 0 <= j < i ==> queue[j] != c
      {
        if queue[i] == c {
          return i;
        }
      }
      return -1;
    }

    /** Takes the channel out of the queue; its transactions stay indexed. */
    method RemovePendingChannel(c: PendingChannel)
      requires Linked() && IsCreated(c)
      modifies this`currentChannel, this`channelQueue
      ensures Linked() && Value() == Manager.Remove(old(Value()), c.id)
    {
      hide CreatedOk, QueueOk, CurrentOk, TxOk, QueueIds, CurrentId, TxIds, ChannelValues;
      Forget(c);
      Dequeue(c);
    }

    method Forget(c: PendingChannel)
      requires Linked() && IsCreated(c)
      modifies this`currentChannel
      ensures Linked()
      ensures Value() == old(Value()).(current := if old(Value()).current == Some(c.id) then None else old(Value()).current)
    {
      hide CreatedOk, QueueOk, TxOk, QueueIds, TxIds, ChannelValues;
      if currentChannel == c {
        currentChannel := null;
      }
    }

    method Dequeue(c: PendingChannel)
      requires Linked() && IsCreated(c)
      modifies this`channelQueue
      ensures Linked() && Value() == old(Value()).(queue := Manager.Without(old(Value()).queue, c.id))
    {
      hide CreatedOk, CurrentOk, TxOk, CurrentId, TxIds, ChannelValues;
      var index := IndexOf(channelQueue, c);
      WithoutAt(QueueIds(), c.id, index);
      if index >= 0 {
        channelQueue := channelQueue[..index] + channelQueue[index + 1..];
      }
      assert QueueIds() == Manager.Without(old(QueueIds()), c.id);
    }

    // ---------------------------------------------------------------- TxData

    /** Pops a frame of the channel into a pending transaction; Eof if there is none. */
    method NextTxData(c: PendingChannel?) returns (r: Manager.TxResult)
      requires Linked() && (c != null ==> IsCreated(c))
      modifies this`txChannels, Owned, Builders
      ensures Linked()
      ensures c == null || old(c.Value()).builder.frames == [] ==> r == Manager.Eof && Value() == old(Value())
      ensures c != null && old(c.Value()).builder.frames != [] ==> (Value(), r) == Manager.TakeFrame(old(Value()), c.id)
    {
      hide CreatedOk, QueueOk, TxOk, CurrentOk, QueueIds, TxIds, ChannelValues, CurrentId, Channels.NextTxData;
      if c == null || c.channelBuilder.frames == [] {
        return Manager.Eof;
      }
      ValueOf(c);
      var f := NextIn(c);
      IndexTx(f.id, c);
      r := Manager.Tx(f);
    }

    method IndexTx(tx: TxId, c: PendingChannel)
      requires Linked() && IsCreated(c)
      modifies this`txChannels
      ensures Linked() && Value() == old(Value()).(txChannels := old(Value()).txChannels[tx := c.id])
    {
      hide CreatedOk, QueueOk, CurrentOk, QueueIds, ChannelValues, CurrentId;
      txChannels := txChannels[tx := c];
      assert TxIds() == old(TxIds())[tx := c.id];
    }

    method NextIn(c: PendingChannel) returns (f: Frame)
      requires Linked() && IsCreated(c) && c.channelBuilder.frames != []
      modifies c`pendingTransactions, c.channelBuilder
      ensures Linked() && f == Channels.NextTxData(old(c.Value())).1
      ensures Value() == old(Value()).(channels := old(Value()).channels[c.id := Channels.NextTxData(old(c.Value())).0])
    {
      hide Channels.NextTxData;
      f := c.NextTxData();
      OnlyChannel(c);
    }

    /** The first channel of the queue that has a frame. */
    method FirstWithFrame() returns (c: PendingChannel?)
      requires Linked()
      ensures forall id :: id in Value().queue ==> id in Value().channels
      ensures c != null ==> IsCreated(c)
      ensures Manager.FirstWithFrame(Value().queue, Value().channels) == if c == null then None else Some(c.id)
    {
      ghost var ids, chans := QueueIds(), ChannelValues();
      assert forall i :: 0 <= i < |ids| ==> ids[i] in chans && chans[ids[i]] == channelQueue[i].Value();
      var i := 0;
      assert ids[0..] == ids;
      while i < |channelQueue|
        invariant 0 <= i <= |ids|
        invariant Manager.FirstWithFrame(ids, chans) == Manager.FirstWithFrame(ids[i..], chans)
      {
        assert ids[i..][1..] == ids[i + 1..];
        if channelQueue[i].channelBuilder.frames != [] {
          return channelQueue[i];
        }
        i := i + 1;
      }
      return null;
    }

    /** A channel with space for more data: the current one, or a new one with the given random id. */
    method EnsureChannelWithSpace(newId: nat) returns (c: PendingChannel)
      requires Linked() && newId !in created && cfg.maxFrameSize > FRAME_OVERHEAD && Steady(z)
      modifies this`currentChannel, this`channelQueue, this`created, this`Owned, this`Builders
      ensures Linked() && IsCreated(c) && (Value(), c.id) == Manager.EnsureSpace(old(Value()), newId)
      ensures c == currentChannel
      ensures old(Owned) <= Owned && fresh(Owned - old(Owned)) && old(Builders) <= Builders && fresh(Builders - old(Builders))
    {
      hide CreatedOk, QueueOk, TxOk, CurrentOk, QueueIds, TxIds, ChannelValues;
      if currentChannel != null {
        CurrentIsCreated();
        ValueOf(currentChannel);
        if currentChannel.channelBuilder.fullErr.None? {
          return currentChannel;
        }
      }
      c := new PendingChannel(newId, cfg, z);
      AdoptChannel(c);
    }

    lemma CurrentIsCreated()
      requires Linked() && currentChannel != null
      ensures IsCreated(currentChannel)
    {
    }

    method AdoptChannel(c: PendingChannel)
      requires Linked() && c.id !in created && c.Ok() && c.cfg == cfg && c.z == z
      modifies this`currentChannel, this`channelQueue, this`created, this`Owned, this`Builders
      ensures Linked() && IsCreated(c) && c == currentChannel
      ensures Owned == old(Owned) + {c} && Builders == old(Builders) + {c.channelBuilder}
      ensures var m := old(Value());
              Value() == m.(current := Some(c.id), queue := m.queue + [c.id], channels := m.channels[c.id := c.Value()])
    {
      hide CreatedOk, QueueOk, TxOk, QueueIds, TxIds, ChannelValues, CurrentId;
      NoteCreated(c);
      Enqueue(c);
    }

    ghost method NoteCreated(c: PendingChannel)
      requires Linked() && c.id !in created && c.Ok() && c.cfg == cfg && c.z == z
      modifies this`created, this`Owned, this`Builders
      ensures Linked() && IsCreated(c)
      ensures Owned == old(Owned) + {c} && Builders == old(Builders) + {c.channelBuilder}
      ensures Value() == old(Value()).(channels := old(Value()).channels[c.id := c.Value()])
    {
      hide CreatedOk, QueueOk, CurrentOk, TxOk, QueueIds, TxIds, CurrentId, ChannelValues;
      created := created[c.id := c];
      Owned, Builders := Owned + {c}, Builders + {c.channelBuilder};
      StillLinked(c);
      CreatedWith(c);
    }

    /** The references stay good when a channel is added. */
    twostate lemma StillLinked(new c: PendingChannel)
      requires old(Linked()) && unchanged(this`currentChannel, this`channelQueue, this`txChannels)
      requires c.id !in old(created) && created == old(created)[c.id := c]
      ensures CurrentOk() && QueueOk() && TxOk()
    {
      hide CreatedOk;
    }

    twostate lemma CreatedWith(new c: PendingChannel)
      requires old(CreatedOk()) && c.id !in old(created) && created == old(created)[c.id := c]
      requires c.Ok() && c.cfg == cfg && c.z == z
      requires Owned == old(Owned) + {c} && Builders == old(Builders) + {c.channelBuilder}
      requires forall id :: id in old(created) ==> unchanged(created[id]) && unchanged(created[id].channelBuilder)
      ensures CreatedOk() && ChannelValues() == old(ChannelValues())[c.id := c.Value()]
    {
      hide PendingChannel.Ok, PendingChannel.Value;
    }

    /** The new channel becomes the current one and the last of the queue. */
    method Enqueue(c: PendingChannel)
      requires Linked() && IsCreated(c)
      modifies this`currentChannel, this`channelQueue
      ensures Linked() && c == currentChannel
      ensures Value() == old(Value()).(current := Some(c.id), queue := old(Value()).queue + [c.id])
    {
      hide CreatedOk, TxOk, TxIds, ChannelValues;
      currentChannel := c;
      channelQueue := channelQueue + [c];
      assert QueueIds() == old(QueueIds()) + [c.id];
    }

    /** Adds blocks from the list to the channel until the list is exhausted or the channel is full. After
        any other error the list stays as it is. */
    method ProcessBlocks(c: PendingChannel) returns (blocksAdded: nat, failed: bool)
      requires Linked() && IsCreated(c) && c.channelBuilder.fullErr.None? && !c.channelBuilder.closed
      modifies this`blocks, c.channelBuilder
      ensures Linked() && c.Ok()
      ensures var (b, n, f) := Channels.ProcessBlocks(old(c.Value()).builder, cfg, z, old(blocks));
              && blocksAdded == n && failed == f && blocks == (if f then old(blocks) else old(blocks)[n..])
              && Value() == old(Value()).(blocks := blocks, channels := old(Value()).channels[c.id := old(c.Value()).(builder := b)])
    {
      hide Channels.ProcessBlocks;
      blocksAdded, failed := FillBuilder(c.channelBuilder, blocks);
      OnlyChannel(c);
      if !failed {
        DropBlocks(blocksAdded);
      }
    }

    /** Removes processed blocks from the list. */
    method DropBlocks(n: nat)
      requires Linked() && n <= |blocks|
      modifies this`blocks
      ensures Linked() && Value() == old(Value()).(blocks := old(blocks)[n..])
    {
      hide CreatedOk, QueueOk, TxOk, CurrentOk, QueueIds, TxIds, ChannelValues, CurrentId;
      if n == |blocks| {
        blocks := []; // all blocks processed
      } else {
        blocks := blocks[n..];
      }
    }

    /** Registers the L1 head at the channel, then outputs its frames. */
    method RegisterAndOutput(c: PendingChannel, l1Head: u64)
      requires Linked() && IsCreated(c) && Midway(c.Value(), z)
      modifies c.channelBuilder
      ensures Linked()
      ensures var b := Channels.RegisterL1Block(old(c.Value()).builder, cfg, l1Head);
              && Ready(b, z) >= 0 && Ready(b.(closed := true), z) >= 0 && Channels.OutputFrames(b, cfg, z).Some?
              && Value() == old(Value()).(channels := old(Value()).channels[c.id := old(c.Value()).(builder := Channels.OutputFrames(b, cfg, z).value)])
    {
      hide Channels.RegisterL1Block, Channels.OutputFrames, Channels.OutputFrame, Midway, FramesPartitioned;
      RegisterKeeps(c.Value(), cfg, z, l1Head);
      NotClosed(c.Value(), z);
      c.channelBuilder.RegisterL1Block(l1Head);
      NotClosed(c.Value(), z);
      c.channelBuilder.OutputFrames();
      OnlyChannel(c);
    }

    /** Returns the next tx data that should be submitted to L1: a frame of the earliest channel that has
        one, or else of the current channel once the waiting blocks are added to it. */
    method TxData(l1Head: u64, newId: nat) returns (r: Manager.TxResult)
      requires Linked() && Manager.Valid(Value(), cfg, z)
      requires Steady(z) && cfg.maxFrameSize > FRAME_OVERHEAD && newId !in Value().channels
      modifies this, Owned, Builders
      ensures Linked()
      ensures (Value(), r) == Manager.TxData(old(Value()), cfg, z, l1Head, newId)
    {
      hide CreatedOk, QueueOk, TxOk, CurrentOk, QueueIds, TxIds, ChannelValues, CurrentId, ChannelValid, Channels.NextTxData;
      ghost var m := Value();
      var first := FirstWithFrame();
      if first != null {
        ValueOf(first);
        r := NextTxData(first);
        return;
      }
      // no queued channel has a frame left
      if |blocks| == 0 {
        return Manager.Eof;
      }
      r := AddAndOutput(l1Head, newId, m);
    }

    method AddAndOutput(l1Head: u64, newId: nat, ghost m: Manager.State) returns (r: Manager.TxResult)
      requires Linked() && m == Value() && Manager.Valid(m, cfg, z)
      requires Steady(z) && cfg.maxFrameSize > FRAME_OVERHEAD && newId !in m.channels
      requires Manager.FirstWithFrame(m.queue, m.channels).None? && m.blocks != []
      modifies this, Owned, Builders
      ensures Linked()
      ensures (Value(), r) == Manager.TxData(m, cfg, z, l1Head, newId)
    {
      hide CreatedOk, QueueOk, TxOk, CurrentOk, QueueIds, TxIds, ChannelValues, CurrentId, ChannelValid, Channels.NextTxData;
      hide Fill, Manager.TakeFrame, Channels.ProcessBlocks;
      Manager.EnsureSpaceKeeps(m, cfg, z, newId);
      NotCreated(newId);
      var c := EnsureChannelWithSpace(newId);
      ghost var m1 := Value();
      ValueOf(c);
      FillKeeps(c.Value(), cfg, z, m.blocks, l1Head);
      ghost var (filled, count, stopped) := Fill(c.Value(), cfg, z, m.blocks, l1Head);
      assert Manager.TxData(m, cfg, z, l1Head, newId)
          == Manager.Deliver(m1.(channels := m1.channels[c.id := filled]), c.id, count, stopped);
      var failed := FillChannel(c, l1Head);
      ValueOf(c);
      if failed {
        return Manager.Failed;
      }
      r := NextTxData(currentChannel);
    }

    /** Everything between opening the channel and taking a frame from it. */
    method FillChannel(c: PendingChannel, l1Head: u64) returns (failed: bool)
      requires Linked() && IsCreated(c) && ChannelValid(c.Value(), z) && !IsFull(c.Value().builder)
      requires Steady(z) && cfg.maxFrameSize > FRAME_OVERHEAD
      modifies this`blocks, c.channelBuilder
      ensures Linked()
      ensures var (c', n, f) := Fill(old(c.Value()), cfg, z, old(blocks), l1Head);
              && failed == f && n <= |old(blocks)|
              && Value() == old(Value()).(blocks := if f then old(blocks) else old(blocks)[n..], channels := old(Value()).channels[c.id := c'])
    {
      hide CreatedOk, QueueOk, TxOk, CurrentOk, QueueIds, TxIds, ChannelValues, CurrentId, ChannelValid, Channels.ProcessBlocks;
      hide Channels.RegisterL1Block, Channels.OutputFrames, Ready, Midway;
      ghost var c0 := c.Value();
      OpenIsMidway(c0, z);
      ProcessBlocksKeeps(c0, cfg, z, blocks);
      NotClosed(c0, z);
      var n;
      n, failed := ProcessBlocks(c);
      ValueOf(c);
      if !failed {
        // after the blocks, so that the head is compared with their deadlines too
        RegisterAndOutput(c, l1Head);
      }
    }

    lemma NotCreated(id: nat)
      requires Linked() && id !in Value().channels
      ensures id !in created
    {
    }
  }

  lemma NotClosed(c: Channel, z: Compressor)
    requires Midway(c, z)
    ensures !c.builder.closed
  {
  }

  lemma OpenIsMidway(c: Channel, z: Compressor)
    requires ChannelValid(c, z) && !IsFull(c.builder)
    ensures Midway(c, z)
  {
  }

  /** The loop of processBlocks on the channel's builder. */
  method FillBuilder(b: ChannelBuilder, blocks: seq<Block>) returns (blocksAdded: nat, failed: bool)
    requires b.Ok() && b.fullErr.None? && !b.closed
    modifies b
    ensures b.Ok() && blocksAdded <= |blocks|
    ensures (b.Value(), blocksAdded, failed) == Channels.ProcessBlocks(old(b.Value()), b.cfg, b.z, blocks)
  {
    hide Channels.AddBlock, ChannelBuilder.Ok;
    ghost var goal := Channels.ProcessBlocks(b.Value(), b.cfg, b.z, blocks);
    blocksAdded, failed := 0, false;
    assert blocks[0..] == blocks;
    while blocksAdded < |blocks|
      invariant blocksAdded <= |blocks| && b.Ok() && b.fullErr.None? && !b.closed
      invariant var (b', n, f) := Channels.ProcessBlocks(b.Value(), b.cfg, b.z, blocks[blocksAdded..]);
                goal == (b', blocksAdded + n, f)
    {
      AddBlockEffect(b.Value(), b.cfg, b.z, blocks[blocksAdded]);
      assert blocks[blocksAdded..][1..] == blocks[blocksAdded + 1..];
      var added := b.AddBlock(blocks[blocksAdded]);
      if added == FullError {
        // not taken: it stays in the list
        return;
      } else if added == OtherError {
        return blocksAdded, true;
      }
      blocksAdded := blocksAdded + 1;
      // taken as the last one
      if b.fullErr.Some? {
        return;
      }
    }
  }

  lemma {:induction false} WithoutAt(ids: seq<nat>, id: nat, index: int)
    requires -1 <= index < |ids| && (index >= 0 ==> ids[index] == id)
    requires forall j :: 0 <= j < (if index >= 0 then index else |ids|) ==> ids[j] != id
    ensures Manager.Without(ids, id) == if index >= 0 then ids[..index] + ids[index + 1..] else ids
    decreases |ids|
  {
    if ids != [] && ids[0] != id {
      WithoutAt(ids[1..], id, if index >= 0 then index - 1 else index);
      if index >= 0 {
        assert ids[..index] == [ids[0]] + ids[1..][..index - 1];
      }
    }
  }
}
