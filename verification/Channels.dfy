/** The batcher's channels as values: what a channel builder and a channel hold, what each operation
    of channel_builder.go and channel.go makes of it, and the invariants every operation keeps. */
module Channels {
  import opened Words
  import opened Sentinel

  const FRAME_OVERHEAD: nat := 23

  /** The parts of an L2 block the batcher looks at; epoch is the number of its L1 origin. */
  datatype Block = Block(hash: nat, parentHash: nat, epoch: u64)

  datatype Config = Config(
    seqWindowSize: u64,
    channelTimeout: u64,
    maxChannelDuration: u64, // 0 disables the duration check
    subSafetyMargin: u64,
    maxFrameSize: u64)

  /** ChannelConfig.Check */
  predicate Checked(cfg: Config) {
    cfg.channelTimeout >= cfg.subSafetyMargin && cfg.maxFrameSize >= FRAME_OVERHEAD
  }

  /** How the channel out takes a block: Bad is any error but the two that mean it is full. */
  datatype Accept = Accepted | TooFull | Bad

  /** The channel out and its compressor, as functions of the blocks written so far: the bytes produced
      (before or after closing), whether the next block is taken, whether the target is reached. */
  datatype Compressor = Compressor(
    stream: (seq<Block>, bool) -> Bytes,
    accept: (seq<Block>, Block) -> Accept,
    full: seq<Block> -> bool)

  /** Bytes that were produced stay produced. */
  ghost predicate Steady(z: Compressor) {
    && (forall blocks: seq<Block>, b: Block {:trigger z.stream(blocks + [b], false)} ::
          z.stream(blocks, false) <= z.stream(blocks + [b], false))
    && (forall blocks: seq<Block> {:trigger z.stream(blocks, true)} :: z.stream(blocks, false) <= z.stream(blocks, true))
  }

  datatype Reason = CompressorFull | MaxDurationReached | ChannelTimeoutClose | SeqWindowClose

  datatype TxId = TxId(channel: nat, number: nat)
  datatype Frame = Frame(id: TxId, data: Bytes)

  datatype Builder = Builder(
    id: nat,
    blocks: seq<Block>,
    timeout: u64, // 0 for none
    timeoutReason: Reason,
    fullErr: Option<Reason>,
    closed: bool,
    frames: seq<Frame>,
    produced: seq<Bytes>, // the data of every frame created so far, by frame number
    heads: seq<u64>, // every L1 head registered so far
    deadlines: seq<u64>) // every deadline registered so far

  function NewBuilder(id: nat): Builder {
    Builder(id, [], 0, CompressorFull, None, false, [], [], [], [])
  }

  predicate IsFull(b: Builder) { b.fullErr.Some? }

  function Flat(parts: seq<Bytes>): Bytes {
    if parts == [] then [] else Flat(parts[..|parts| - 1]) + parts[|parts| - 1]
  }

  // ------------------------------------------------------------------ deadlines

  function UpdateTimeout(b: Builder, deadline: u64, reason: Reason): Builder {
    var b' := b.(deadlines := b.deadlines + [deadline]);
    if b.timeout == 0 || b.timeout > deadline then b'.(timeout := deadline, timeoutReason := reason) else b'
  }

  /** The timeout is the earliest deadline registered since the last zero one, and 0 if there is none. A
      deadline is zero only if its 64-bit sum is: when no sum is, it is the earliest deadline of all. */
  lemma TimeoutMeaning(b: Builder)
    requires b.timeout == Earliest(b.deadlines)
    ensures b.timeout == 0 <==> SinceZero(b.deadlines) == |b.deadlines|
    ensures b.timeout != 0 ==> b.timeout in b.deadlines[SinceZero(b.deadlines)..]
    ensures forall k :: SinceZero(b.deadlines) <= k < |b.deadlines| ==> b.timeout <= b.deadlines[k]
    ensures 0 !in b.deadlines ==> SinceZero(b.deadlines) == 0
  {
    EarliestMeaning(b.deadlines);
  }

  lemma UpdateKeepsEarliest(b: Builder, deadline: u64, reason: Reason)
    requires b.timeout == Earliest(b.deadlines)
    ensures var b' := UpdateTimeout(b, deadline, reason);
            b'.timeout == Earliest(b'.deadlines)
  {
    EarliestStep(b.deadlines, deadline);
  }

  /** The three deadlines, in 64-bit arithmetic. */
  function DurationDeadline(cfg: Config, l1Block: u64): u64 { (l1Block + cfg.maxChannelDuration) % W64 }
  function WindowDeadline(cfg: Config, epoch: u64): u64 { (epoch + cfg.seqWindowSize - cfg.subSafetyMargin) % W64 }
  function TimeoutDeadline(cfg: Config, inclusion: u64): u64 { (inclusion + cfg.channelTimeout - cfg.subSafetyMargin) % W64 }

  predicate TimedOut(b: Builder, l1Block: u64) { b.timeout != 0 && l1Block >= b.timeout }

  function RegisterL1Block(b: Builder, cfg: Config, l1Block: u64): Builder {
    var b0 := b.(heads := b.heads + [l1Block]);
    var b1 := if cfg.maxChannelDuration == 0 then b0 else UpdateTimeout(b0, DurationDeadline(cfg, l1Block), MaxDurationReached);
    if !IsFull(b1) && TimedOut(b1, l1Block) then b1.(fullErr := Some(b1.timeoutReason)) else b1
  }

  function FramePublished(b: Builder, cfg: Config, inclusion: u64): Builder {
    UpdateTimeout(b, TimeoutDeadline(cfg, inclusion), ChannelTimeoutClose)
  }

  lemma RegisterKeepsEarliest(b: Builder, cfg: Config, l1Block: u64)
    requires b.timeout == Earliest(b.deadlines)
    ensures var b' := RegisterL1Block(b, cfg, l1Block);
            && b'.timeout == Earliest(b'.deadlines)
            && b'.deadlines == b.deadlines + (if cfg.maxChannelDuration != 0 then [DurationDeadline(cfg, l1Block)] else [])
            && (!IsFull(b') ==> b'.timeout == 0 || l1Block < b'.timeout)
  {
    hide Earliest, DurationDeadline;
    UpdateKeepsEarliest(b.(heads := b.heads + [l1Block]), DurationDeadline(cfg, l1Block), MaxDurationReached);
  }

  /** A builder left open by the registration of an L1 block is before every deadline registered since
      the last zero one, that L1 block's own duration deadline included. */
  lemma OpenMeansBeforeDeadlines(b: Builder, cfg: Config, l1Block: u64)
    requires b.timeout == Earliest(b.deadlines) && !IsFull(RegisterL1Block(b, cfg, l1Block))
    ensures var d := RegisterL1Block(b, cfg, l1Block).deadlines;
            && (cfg.maxChannelDuration != 0 ==> d == b.deadlines + [DurationDeadline(cfg, l1Block)])
            && (forall k :: SinceZero(d) <= k < |d| ==> l1Block < d[k])
            && (0 !in d ==> forall k :: 0 <= k < |d| ==> l1Block < d[k])
  {
    hide RegisterL1Block, Earliest, SinceZero;
    RegisterKeepsEarliest(b, cfg, l1Block);
    EarliestMeaning(RegisterL1Block(b, cfg, l1Block).deadlines);
  }

  // ------------------------------------------------------------------ blocks

  datatype Added = Taken | FullError | OtherError

  function AddBlock(b: Builder, cfg: Config, z: Compressor, block: Block): (r: (Builder, Added)) {
    if IsFull(b) then (b, FullError)
    else
      match z.accept(b.blocks, block)
      case Bad => (b, OtherError)
      case TooFull => (b.(fullErr := Some(CompressorFull)), FullError)
      case Accepted =>
        var b1 := UpdateTimeout(b.(blocks := b.blocks + [block]), WindowDeadline(cfg, block.epoch), SeqWindowClose);
        (if z.full(b1.blocks) then b1.(fullErr := Some(CompressorFull)) else b1, Taken)
  }

  // ------------------------------------------------------------------ frames

  function Ready(b: Builder, z: Compressor): int {
    |z.stream(b.blocks, b.closed)| - |Flat(b.produced)|
  }

  /** One frame of at most the room left by the overhead; it is the last if the channel is closed and
      the frame has room to spare. */
  function OutputFrame(b: Builder, cfg: Config, z: Compressor): (r: (Builder, bool))
    requires cfg.maxFrameSize >= FRAME_OVERHEAD && Ready(b, z) >= 0
  {
    var stream, taken := z.stream(b.blocks, b.closed), |Flat(b.produced)|;
    var room := cfg.maxFrameSize - FRAME_OVERHEAD;
    var n := if room > Ready(b, z) then Ready(b, z) else room;
    var data := stream[taken..taken + n];
    (b.(frames := b.frames + [Frame(TxId(b.id, |b.produced|), data)], produced := b.produced + [data]),
     room > Ready(b, z) && b.closed)
  }

  lemma FlatAppend(parts: seq<Bytes>, part: Bytes)
    ensures Flat(parts + [part]) == Flat(parts) + part
  {
    assert (parts + [part])[..|parts|] == parts;
  }

  /** A frame takes bytes off what is ready, unless the size limit leaves no room: at a limit of 23,
      which the configuration check allows, frames stay empty and neither output loop ever ends. */
  lemma FrameProgress(b: Builder, cfg: Config, z: Compressor)
    requires cfg.maxFrameSize >= FRAME_OVERHEAD && Ready(b, z) >= 0
    ensures var (b', last) := OutputFrame(b, cfg, z);
            && 0 <= Ready(b', z) <= Ready(b, z)
            && (Ready(b', z) < Ready(b, z) <==> Ready(b, z) > 0 && cfg.maxFrameSize > FRAME_OVERHEAD)
            && (last ==> Ready(b', z) == 0)
            && (b.closed && Ready(b, z) == 0 ==> (last <==> cfg.maxFrameSize > FRAME_OVERHEAD))
  {
    var (b', last) := OutputFrame(b, cfg, z);
    FlatAppend(b.produced, b'.produced[|b.produced|]);
  }

  /** What n calls of OutputFrame in a row leave, and whether any of them gave the last frame. */
  function FramesOut(b: Builder, cfg: Config, z: Compressor, n: nat): (r: (Builder, bool))
    requires cfg.maxFrameSize >= FRAME_OVERHEAD && Ready(b, z) >= 0
    ensures Ready(r.0, z) >= 0
  {
    if n == 0 then (b, false)
    else
      var (b1, ended) := FramesOut(b, cfg, z, n - 1);
      var (b2, last) := OutputFrame(b1, cfg, z);
      FrameProgress(b1, cfg, z);
      (b2, ended || last)
  }

  /** The configuration check accepts a frame size that leaves no room. With it neither output loop ends,
      for any channel: after any number of frames none was the last, and as many bytes are ready as at
      the start. */
  lemma {:induction false} BareFramesNeverEnd(b: Builder, checked: Config, z: Compressor, n: nat)
    requires Checked(checked) && Ready(b, z) >= 0
    ensures var cfg := checked.(maxFrameSize := FRAME_OVERHEAD);
            var (b', ended) := FramesOut(b, cfg, z, n);
            && Checked(cfg) && !ended && Ready(b', z) == Ready(b, z)
            && |b'.frames| == |b.frames| + n && b'.closed == b.closed
  {
    if n > 0 {
      var cfg := checked.(maxFrameSize := FRAME_OVERHEAD);
      BareFramesNeverEnd(b, checked, z, n - 1);
      FrameProgress(FramesOut(b, cfg, z, n - 1).0, cfg, z);
    }
  }

  /** The loop of outputReadyFrames. */
  function OutputReady(b: Builder, cfg: Config, z: Compressor): Builder
    requires cfg.maxFrameSize > FRAME_OVERHEAD && Ready(b, z) >= 0
    decreases Ready(b, z)
  {
    if Ready(b, z) < cfg.maxFrameSize then b
    else FrameProgress(b, cfg, z); OutputReady(OutputFrame(b, cfg, z).0, cfg, z)
  }

  /** The loop of closeAndOutputAllFrames. */
  function OutputAll(b: Builder, cfg: Config, z: Compressor): Builder
    requires cfg.maxFrameSize > FRAME_OVERHEAD && Ready(b, z) >= 0 && b.closed
    decreases Ready(b, z)
  {
    var (b', last) := OutputFrame(b, cfg, z);
    FrameProgress(b, cfg, z);
    if last then b' else OutputAll(b', cfg, z)
  }

  /** None where the channel out is closed a second time, which is an error. */
  function OutputFrames(b: Builder, cfg: Config, z: Compressor): Option<Builder>
    requires cfg.maxFrameSize > FRAME_OVERHEAD && Ready(b, z) >= 0 && Ready(b.(closed := true), z) >= 0
  {
    if !IsFull(b) then Some(OutputReady(b, cfg, z))
    else if b.closed then None
    else Some(OutputAll(b.(closed := true), cfg, z))
  }

  // ------------------------------------------------------------------ the channel

  datatype Channel = Channel(builder: Builder, pending: map<TxId, Frame>, confirmed: map<TxId, u64>)

  function NewChannel(id: nat): Channel {
    Channel(NewBuilder(id), map[], map[])
  }

  function QueuedIds(frames: seq<Frame>): set<TxId> {
    set i | 0 <= i < |frames| :: frames[i].id
  }

  /** The transactions of frames 0..n-1. */
  function AllIds(channel: nat, n: nat): set<TxId> {
    set k | 0 <= k < n :: TxId(channel, k)
  }

  /** The frame is the one created under its number. */
  predicate Genuine(b: Builder, f: Frame) {
    f.id.channel == b.id && f.id.number < |b.produced| && f.data == b.produced[f.id.number]
  }

  /** Every frame ever created is in exactly one place: queued, in a pending transaction, or confirmed. */
  ghost predicate FramesPartitioned(c: Channel) {
    var b, queued := c.builder, QueuedIds(c.builder.frames);
    && (forall i :: 0 <= i < |b.frames| ==> Genuine(b, b.frames[i]))
    && (forall i, j :: 0 <= i < j < |b.frames| ==> b.frames[i].id != b.frames[j].id)
    && (forall t :: t in c.pending ==> c.pending[t].id == t && Genuine(b, c.pending[t]))
    && queued !! c.pending.Keys && queued !! c.confirmed.Keys && c.pending.Keys !! c.confirmed.Keys
    && queued + c.pending.Keys + c.confirmed.Keys == AllIds(b.id, |b.produced|)
  }

  /** The frames created so far carry the channel's bytes in order. Between calls a channel is closed
      exactly when it is full, and then all its bytes are in frames. */
  ghost predicate BuilderValid(b: Builder, z: Compressor) {
    && Flat(b.produced) <= z.stream(b.blocks, b.closed)
    && b.timeout == Earliest(b.deadlines)
    && (IsFull(b) <==> b.closed)
    && (b.closed ==> Flat(b.produced) == z.stream(b.blocks, true) && b.produced != [])
  }

  ghost predicate ChannelValid(c: Channel, z: Compressor) {
    FramesPartitioned(c) && BuilderValid(c.builder, z)
  }

  lemma NewChannelValid(id: nat, z: Compressor)
    ensures ChannelValid(NewChannel(id), z)
  {
  }

  // ------------------------------------------------------------------ what the operations keep

  /** Within one call of the manager the channel may be full and not closed yet. */
  ghost predicate Midway(c: Channel, z: Compressor) {
    && FramesPartitioned(c) && c.builder.timeout == Earliest(c.builder.deadlines)
    && Flat(c.builder.produced) <= z.stream(c.builder.blocks, false) && !c.builder.closed
  }

  /** The partition concerns the frames and transactions only. */
  lemma SameFrames(c: Channel, b: Builder)
    requires FramesPartitioned(c)
    requires b.id == c.builder.id && b.frames == c.builder.frames && b.produced == c.builder.produced
    ensures FramesPartitioned(c.(builder := b))
  {
  }

  lemma AddBlockKeeps(c: Channel, cfg: Config, z: Compressor, block: Block)
    requires Steady(z) && Midway(c, z)
    ensures Midway(c.(builder := AddBlock(c.builder, cfg, z, block).0), z)
  {
    hide FramesPartitioned, Earliest, WindowDeadline, Flat;
    var b := c.builder;
    SameFrames(c, AddBlock(b, cfg, z, block).0);
    UpdateKeepsEarliest(b.(blocks := b.blocks + [block]), WindowDeadline(cfg, block.epoch), SeqWindowClose);
    assert z.stream(b.blocks, false) <= z.stream(b.blocks + [block], false);
    PrefixTrans(Flat(b.produced), z.stream(b.blocks, false), z.stream(b.blocks + [block], false));
  }

  lemma PrefixTrans(a: Bytes, b: Bytes, c: Bytes)
    requires a <= b && b <= c
    ensures a <= c
  {
  }

  lemma AllIdsNext(channel: nat, n: nat)
    ensures AllIds(channel, n + 1) == AllIds(channel, n) + {TxId(channel, n)} && TxId(channel, n) !in AllIds(channel, n)
  {
  }

  lemma QueuedIdsNext(frames: seq<Frame>, f: Frame)
    ensures QueuedIds(frames + [f]) == QueuedIds(frames) + {f.id}
  {
    assert forall i :: 0 <= i < |frames| ==> (frames + [f])[i] == frames[i];
    assert (frames + [f])[|frames|] == f;
  }

  /** Creating a frame keeps the partition and puts the next bytes of the stream into it. */
  lemma OutputFrameKeeps(c: Channel, cfg: Config, z: Compressor)
    requires FramesPartitioned(c) && cfg.maxFrameSize >= FRAME_OVERHEAD
    requires Flat(c.builder.produced) <= z.stream(c.builder.blocks, c.builder.closed)
    ensures var b' := OutputFrame(c.builder, cfg, z).0;
            && FramesPartitioned(c.(builder := b'))
            && Flat(b'.produced) <= z.stream(b'.blocks, b'.closed)
  {
    hide FramesPartitioned, Genuine, QueuedIds, AllIds;
    var b := c.builder;
    var b' := OutputFrame(b, cfg, z).0;
    var data := b'.produced[|b.produced|];
    FlatAppend(b.produced, data);
    AppendKeepsPartition(c, data);
  }

  lemma AppendKeepsPartition(c: Channel, data: Bytes)
    requires FramesPartitioned(c)
    ensures var b := c.builder;
            FramesPartitioned(c.(builder := b.(frames := b.frames + [Frame(TxId(b.id, |b.produced|), data)], produced := b.produced + [data])))
  {
    var b := c.builder;
    var f := Frame(TxId(b.id, |b.produced|), data);
    AllIdsNext(b.id, |b.produced|);
    QueuedIdsNext(b.frames, f);
    assert forall i :: 0 <= i < |b.frames| ==> b.frames[i].id in QueuedIds(b.frames);
  }

  lemma {:induction false} OutputReadyKeeps(c: Channel, cfg: Config, z: Compressor)
    requires FramesPartitioned(c) && cfg.maxFrameSize > FRAME_OVERHEAD
    requires Flat(c.builder.produced) <= z.stream(c.builder.blocks, c.builder.closed)
    ensures var b' := OutputReady(c.builder, cfg, z);
            && FramesPartitioned(c.(builder := b')) && Flat(b'.produced) <= z.stream(b'.blocks, b'.closed)
            && b' == c.builder.(frames := b'.frames, produced := b'.produced)
    decreases Ready(c.builder, z)
  {
    if Ready(c.builder, z) >= cfg.maxFrameSize {
      FrameProgress(c.builder, cfg, z);
      OutputFrameKeeps(c, cfg, z);
      OutputReadyKeeps(c.(builder := OutputFrame(c.builder, cfg, z).0), cfg, z);
    }
  }

  lemma {:induction false} OutputAllKeeps(c: Channel, cfg: Config, z: Compressor)
    requires FramesPartitioned(c) && cfg.maxFrameSize > FRAME_OVERHEAD && c.builder.closed
    requires Flat(c.builder.produced) <= z.stream(c.builder.blocks, true)
    ensures var b' := OutputAll(c.builder, cfg, z);
            && FramesPartitioned(c.(builder := b')) && Flat(b'.produced) == z.stream(b'.blocks, true) && b'.produced != []
            && b' == c.builder.(frames := b'.frames, produced := b'.produced)
    decreases Ready(c.builder, z)
  {
    var (b', last) := OutputFrame(c.builder, cfg, z);
    FrameProgress(c.builder, cfg, z);
    OutputFrameKeeps(c, cfg, z);
    if !last {
      OutputAllKeeps(c.(builder := b'), cfg, z);
    }
  }

  /** After OutputFrames the channel is closed exactly if it is full, and a closed one is drained. */
  lemma OutputFramesKeeps(c: Channel, cfg: Config, z: Compressor)
    requires Steady(z) && Midway(c, z) && cfg.maxFrameSize > FRAME_OVERHEAD
    ensures Ready(c.builder, z) >= 0 && Ready(c.builder.(closed := true), z) >= 0
    ensures var b' := OutputFrames(c.builder, cfg, z);
            b'.Some? && ChannelValid(c.(builder := b'.value), z)
            && b'.value == c.builder.(frames := b'.value.frames, produced := b'.value.produced, closed := b'.value.closed)
  {
    var b := c.builder;
    PrefixTrans(Flat(b.produced), z.stream(b.blocks, false), z.stream(b.blocks, true));
    if IsFull(b) {
      OutputAllKeeps(c.(builder := b.(closed := true)), cfg, z);
    } else {
      OutputReadyKeeps(c, cfg, z);
    }
  }

  /** NextTxData: pop the first queued frame into a pending transaction. */
  function NextTxData(c: Channel): (Channel, Frame)
    requires c.builder.frames != []
  {
    var f := c.builder.frames[0];
    (c.(builder := c.builder.(frames := c.builder.frames[1..]), pending := c.pending[f.id := f]), f)
  }

  lemma NextTxDataKeeps(c: Channel, z: Compressor)
    requires ChannelValid(c, z) && c.builder.frames != []
    ensures ChannelValid(NextTxData(c).0, z)
  {
    var frames := c.builder.frames;
    assert frames == [frames[0]] + frames[1..];
    assert QueuedIds(frames) == {frames[0].id} + QueuedIds(frames[1..]) by {
      assert forall i :: 0 < i < |frames| ==> frames[i] == frames[1..][i - 1];
    }
    assert frames[0].id !in QueuedIds(frames[1..]);
  }

  function TxFailed(c: Channel, id: TxId): Channel {
    if id in c.pending then
      c.(builder := c.builder.(frames := c.builder.frames + [c.pending[id]]), pending := c.pending - {id})
    else c
  }

  lemma TxFailedKeeps(c: Channel, z: Compressor, id: TxId)
    requires ChannelValid(c, z)
    ensures ChannelValid(TxFailed(c, id), z)
  {
    if id in c.pending {
      QueuedIdsNext(c.builder.frames, c.pending[id]);
      assert forall i :: 0 <= i < |c.builder.frames| ==> c.builder.frames[i].id in QueuedIds(c.builder.frames);
    }
  }

  // ------------------------------------------------------------------ confirmation

  /** The inclusion blocks of two confirmed transactions are at least the channel timeout apart. */
  ghost predicate SpanReached(confirmed: map<TxId, u64>, timeout: u64) {
    exists s, t :: s in confirmed && t in confirmed && confirmed[t] - confirmed[s] >= timeout
  }

  predicate FullySubmitted(c: Channel) {
    IsFull(c.builder) && |c.pending| + |c.builder.frames| == 0
  }

  function Confirm(c: Channel, cfg: Config, id: TxId, inclusion: u64): Channel {
    Channel(FramePublished(c.builder, cfg, inclusion), c.pending - {id}, c.confirmed[id := inclusion])
  }

  lemma ConfirmKeeps(c: Channel, cfg: Config, z: Compressor, id: TxId, inclusion: u64)
    requires ChannelValid(c, z) && id in c.pending
    ensures ChannelValid(Confirm(c, cfg, id, inclusion), z)
  {
    hide FramesPartitioned, Earliest, TimeoutDeadline, Flat;
    UpdateKeepsEarliest(c.builder, TimeoutDeadline(cfg, inclusion), ChannelTimeoutClose);
    MoveToConfirmed(c, id, inclusion);
    SameFrames(Channel(c.builder, c.pending - {id}, c.confirmed[id := inclusion]), FramePublished(c.builder, cfg, inclusion));
  }

  lemma MoveToConfirmed(c: Channel, id: TxId, inclusion: u64)
    requires FramesPartitioned(c) && id in c.pending
    ensures FramesPartitioned(Channel(c.builder, c.pending - {id}, c.confirmed[id := inclusion]))
  {
    hide Genuine;
    assert c.confirmed[id := inclusion].Keys == c.confirmed.Keys + {id};
    assert (c.pending - {id}).Keys == c.pending.Keys - {id};
  }

  datatype Verdict = Ignored | Open | TimedOutChannel | Done

  ghost function TxConfirmed(c: Channel, cfg: Config, id: TxId, inclusion: u64): (Channel, Verdict) {
    if id !in c.pending then (c, Ignored)
    else
      var c' := Confirm(c, cfg, id, inclusion);
      (c', if SpanReached(c'.confirmed, cfg.channelTimeout) then TimedOutChannel
           else if FullySubmitted(c') then Done else Open)
  }

  /** Complete on L1: closed, every frame confirmed, the frames together carry all its bytes in order,
      and any two were included less than the channel timeout apart. */
  ghost predicate CompleteOnL1(c: Channel, cfg: Config, z: Compressor) {
    && c.builder.closed && c.builder.frames == [] && c.pending == map[]
    && c.confirmed.Keys == AllIds(c.builder.id, |c.builder.produced|)
    && Flat(c.builder.produced) == z.stream(c.builder.blocks, true)
    && forall s, t :: s in c.confirmed && t in c.confirmed ==> c.confirmed[t] - c.confirmed[s] < cfg.channelTimeout
  }

  /** A channel reported done is complete on L1, and no pair of its frames was included too far apart. */
  lemma DoneMeansComplete(c: Channel, cfg: Config, z: Compressor, id: TxId, inclusion: u64)
    requires ChannelValid(c, z) && TxConfirmed(c, cfg, id, inclusion).1 == Done
    ensures var c' := TxConfirmed(c, cfg, id, inclusion).0;
            CompleteOnL1(c', cfg, z) && c'.builder.id == c.builder.id && c'.builder.blocks == c.builder.blocks
  {
    ConfirmKeeps(c, cfg, z, id, inclusion);
    var c' := TxConfirmed(c, cfg, id, inclusion).0;
    assert c'.builder.frames == [];
    assert QueuedIds(c'.builder.frames) == {};
    assert c'.pending.Keys == {};
  }

  // ------------------------------------------------------------------ filling a channel

  /** The loop of processBlocks: the builder, how many blocks it took, and whether adding failed. */
  function ProcessBlocks(b: Builder, cfg: Config, z: Compressor, blocks: seq<Block>): (r: (Builder, nat, bool))
    ensures r.1 <= |blocks|
    decreases |blocks|
  {
    if blocks == [] then (b, 0, false)
    else
      var (b1, added) := AddBlock(b, cfg, z, blocks[0]);
      if added == FullError then (b1, 0, false)
      else if added == OtherError then (b1, 0, true)
      else if IsFull(b1) then (b1, 1, false)
      else
        var (b2, n, failed) := ProcessBlocks(b1, cfg, z, blocks[1..]);
        (b2, n + 1, failed)
  }

  /** The channel gains exactly the blocks it took. A failed run leaves it open, with no new frame. */
  lemma {:induction false} ProcessBlocksKeeps(c: Channel, cfg: Config, z: Compressor, blocks: seq<Block>)
    requires Steady(z) && Midway(c, z) && !IsFull(c.builder)
    ensures var (b, n, failed) := ProcessBlocks(c.builder, cfg, z, blocks);
            && Midway(c.(builder := b), z)
            && b.id == c.builder.id && b.blocks == c.builder.blocks + blocks[..n]
            && b.frames == c.builder.frames && b.produced == c.builder.produced
            && (failed ==> !IsFull(b) && n < |blocks|)
    decreases |blocks|
  {
    hide Midway, UpdateTimeout, WindowDeadline;
    if blocks != [] {
      var (b1, added) := AddBlock(c.builder, cfg, z, blocks[0]);
      AddBlockKeeps(c, cfg, z, blocks[0]);
      AddBlockEffect(c.builder, cfg, z, blocks[0]);
      if added == Taken && !IsFull(b1) {
        ProcessBlocksKeeps(c.(builder := b1), cfg, z, blocks[1..]);
        var n := ProcessBlocks(b1, cfg, z, blocks[1..]).1;
        assert [blocks[0]] + blocks[1..][..n] == blocks[..n + 1];
      }
    }
  }

  lemma AddBlockEffect(b: Builder, cfg: Config, z: Compressor, block: Block)
    requires !IsFull(b)
    ensures var (b1, added) := AddBlock(b, cfg, z, block);
            && b1.id == b.id && b1.frames == b.frames && b1.produced == b.produced && b1.closed == b.closed
            && b1.blocks == b.blocks + (if added == Taken then [block] else [])
            && (added == FullError ==> IsFull(b1)) && (added == OtherError ==> b1 == b)
  {
  }

  lemma RegisterKeeps(c: Channel, cfg: Config, z: Compressor, l1Block: u64)
    requires Midway(c, z)
    ensures var b := RegisterL1Block(c.builder, cfg, l1Block);
            Midway(c.(builder := b), z) && b.id == c.builder.id && b.blocks == c.builder.blocks
  {
    hide FramesPartitioned, Earliest, DurationDeadline, Flat;
    RegisterKeepsEarliest(c.builder, cfg, l1Block);
    SameFrames(c, RegisterL1Block(c.builder, cfg, l1Block));
  }

  /** What TxData does to an open channel: add blocks, register the L1 head, output frames. The channel,
      how many blocks it took, and whether adding failed, in which case the rest is skipped. */
  ghost function Fill(c: Channel, cfg: Config, z: Compressor, blocks: seq<Block>, l1Head: u64): (Channel, nat, bool)
    requires Steady(z) && ChannelValid(c, z) && !IsFull(c.builder) && cfg.maxFrameSize > FRAME_OVERHEAD
  {
    var (b1, n, failed) := ProcessBlocks(c.builder, cfg, z, blocks);
    if failed then (c.(builder := b1), n, true)
    else
      ProcessBlocksKeeps(c, cfg, z, blocks);
      RegisterKeeps(c.(builder := b1), cfg, z, l1Head);
      var b2 := RegisterL1Block(b1, cfg, l1Head);
      OutputFramesKeeps(c.(builder := b2), cfg, z);
      (c.(builder := OutputFrames(b2, cfg, z).value), n, false)
  }

  /** The channel stays valid and gains exactly the blocks it took. If it is still open after the L1 head
      was registered, the head is before every deadline registered since the last zero one, and the
      deadline the maximum duration sets for this head is among them. */
  lemma FillKeeps(c: Channel, cfg: Config, z: Compressor, blocks: seq<Block>, l1Head: u64)
    requires Steady(z) && ChannelValid(c, z) && !IsFull(c.builder) && cfg.maxFrameSize > FRAME_OVERHEAD
    ensures var (c', n, failed) := Fill(c, cfg, z, blocks, l1Head);
            var d := c'.builder.deadlines;
            && ChannelValid(c', z) && c'.pending == c.pending && c'.confirmed == c.confirmed
            && n <= |blocks| && c'.builder.id == c.builder.id && c'.builder.blocks == c.builder.blocks + blocks[..n]
            && (failed ==> !IsFull(c'.builder) && c'.builder.frames == c.builder.frames)
            && (!failed && cfg.maxChannelDuration != 0 ==> d != [] && d[|d| - 1] == DurationDeadline(cfg, l1Head))
            && (!failed && !IsFull(c'.builder) ==> forall k :: SinceZero(d) <= k < |d| ==> l1Head < d[k])
  {
    hide FramesPartitioned, Earliest, DurationDeadline, Flat, SinceZero, ProcessBlocks, RegisterL1Block, OutputFrames;
    ProcessBlocksKeeps(c, cfg, z, blocks);
    var (b1, n, failed) := ProcessBlocks(c.builder, cfg, z, blocks);
    if !failed {
      RegisterKeeps(c.(builder := b1), cfg, z, l1Head);
      RegisterKeepsEarliest(b1, cfg, l1Head);
      var b2 := RegisterL1Block(b1, cfg, l1Head);
      if !IsFull(b2) {
        OpenMeansBeforeDeadlines(b1, cfg, l1Head);
      }
      OutputFramesKeeps(c.(builder := b2), cfg, z);
    }
  }

  // ------------------------------------------------------------------ every deadline a channel has

  function WindowDeadlines(cfg: Config, blocks: seq<Block>): set<u64> {
    set b | b in blocks :: WindowDeadline(cfg, b.epoch)
  }

  function TimeoutDeadlines(cfg: Config, confirmed: map<TxId, u64>): set<u64> {
    set t | t in confirmed :: TimeoutDeadline(cfg, confirmed[t])
  }

  function DurationDeadlines(cfg: Config, heads: seq<u64>): set<u64> {
    if cfg.maxChannelDuration == 0 then {} else set h | h in heads :: DurationDeadline(cfg, h)
  }

  /** The deadlines a channel is to meet: the end of the sequencing window of each of its blocks, the
      channel timeout of each of its confirmed frames, the duration since each L1 head it has seen. */
  function Deadlines(c: Channel, cfg: Config): set<u64> {
    WindowDeadlines(cfg, c.builder.blocks) + TimeoutDeadlines(cfg, c.confirmed) + DurationDeadlines(cfg, c.builder.heads)
  }

  function Elements(s: seq<u64>): set<u64> {
    set x | x in s
  }

  /** Those deadlines, and no others, were registered. */
  ghost predicate Accounted(c: Channel, cfg: Config) {
    Elements(c.builder.deadlines) == Deadlines(c, cfg)
  }

  /** While no deadline sum is zero the timeout is the earliest deadline of the channel, and unset only
      when it has none. */
  lemma TimeoutIsEarliest(c: Channel, cfg: Config)
    requires Accounted(c, cfg) && c.builder.timeout == Earliest(c.builder.deadlines) && 0 !in Deadlines(c, cfg)
    ensures c.builder.timeout == 0 <==> Deadlines(c, cfg) == {}
    ensures c.builder.timeout != 0 ==> c.builder.timeout in Deadlines(c, cfg)
    ensures forall x :: x in Deadlines(c, cfg) ==> c.builder.timeout <= x
  {
    hide Deadlines;
    var d := c.builder.deadlines;
    assert forall x :: x in d <==> x in Elements(d);
    EarliestMeaning(d);
    assert d[0..] == d;
    assert d == [] <==> Elements(d) == {} by {
      if d != [] {
        assert d[0] in Elements(d);
      }
    }
  }

  lemma AccountedNew(id: nat, cfg: Config)
    ensures Accounted(NewChannel(id), cfg)
  {
  }

  lemma ElementsAppend(s: seq<u64>, x: u64)
    ensures Elements(s + [x]) == Elements(s) + {x}
  {
  }

  lemma AddBlockAccounts(c: Channel, cfg: Config, z: Compressor, block: Block)
    requires Accounted(c, cfg)
    ensures Accounted(c.(builder := AddBlock(c.builder, cfg, z, block).0), cfg)
  {
    hide WindowDeadline, TimeoutDeadlines, DurationDeadlines, Elements;
    var blocks := c.builder.blocks;
    assert WindowDeadlines(cfg, blocks + [block]) == WindowDeadlines(cfg, blocks) + {WindowDeadline(cfg, block.epoch)} by {
      assert forall b :: b in blocks + [block] <==> b in blocks || b == block;
    }
    ElementsAppend(c.builder.deadlines, WindowDeadline(cfg, block.epoch));
  }

  lemma {:induction false} ProcessBlocksAccounts(c: Channel, cfg: Config, z: Compressor, blocks: seq<Block>)
    requires Accounted(c, cfg)
    ensures Accounted(c.(builder := ProcessBlocks(c.builder, cfg, z, blocks).0), cfg)
    decreases |blocks|
  {
    hide Accounted, AddBlock;
    if blocks != [] {
      AddBlockAccounts(c, cfg, z, blocks[0]);
      var (b1, added) := AddBlock(c.builder, cfg, z, blocks[0]);
      if added == Taken && !IsFull(b1) {
        ProcessBlocksAccounts(c.(builder := b1), cfg, z, blocks[1..]);
      }
    }
  }

  lemma RegisterAccounts(c: Channel, cfg: Config, l1Block: u64)
    requires Accounted(c, cfg)
    ensures Accounted(c.(builder := RegisterL1Block(c.builder, cfg, l1Block)), cfg)
  {
    hide DurationDeadline, TimeoutDeadlines, WindowDeadlines, Elements;
    var heads := c.builder.heads;
    assert cfg.maxChannelDuration != 0 ==>
        DurationDeadlines(cfg, heads + [l1Block]) == DurationDeadlines(cfg, heads) + {DurationDeadline(cfg, l1Block)} by {
      assert forall h :: h in heads + [l1Block] <==> h in heads || h == l1Block;
    }
    ElementsAppend(c.builder.deadlines, DurationDeadline(cfg, l1Block));
  }

  lemma ConfirmAccounts(c: Channel, cfg: Config, id: TxId, inclusion: u64)
    requires Accounted(c, cfg) && id !in c.confirmed
    ensures Accounted(Confirm(c, cfg, id, inclusion), cfg)
  {
    hide TimeoutDeadline, DurationDeadlines, WindowDeadlines, Elements;
    var confirmed := c.confirmed[id := inclusion];
    assert TimeoutDeadlines(cfg, confirmed) == TimeoutDeadlines(cfg, c.confirmed) + {TimeoutDeadline(cfg, inclusion)} by {
      assert forall t :: t in c.confirmed ==> confirmed[t] == c.confirmed[t];
      assert confirmed[id] == inclusion;
    }
    ElementsAppend(c.builder.deadlines, TimeoutDeadline(cfg, inclusion));
  }

  /** The L1 block is before the end of the sequencing window of every block in the channel, before the
      channel timeout of every confirmed frame, and within the duration since every L1 head seen. */
  ghost predicate BeforeDeadlines(c: Channel, cfg: Config, l1Block: u64) {
    && (forall b :: b in c.builder.blocks ==> l1Block < WindowDeadline(cfg, b.epoch))
    && (forall t :: t in c.confirmed ==> l1Block < TimeoutDeadline(cfg, c.confirmed[t]))
    && (cfg.maxChannelDuration != 0 ==> forall h :: h in c.builder.heads ==> l1Block < DurationDeadline(cfg, h))
  }

  lemma BeforeAll(c: Channel, cfg: Config, l1Block: u64)
    ensures BeforeDeadlines(c, cfg, l1Block) <==> forall x :: x in Deadlines(c, cfg) ==> l1Block < x
  {
    hide WindowDeadline, TimeoutDeadline, DurationDeadline;
    var all := Deadlines(c, cfg);
    assert forall b :: b in c.builder.blocks ==> WindowDeadline(cfg, b.epoch) in all;
    assert forall t :: t in c.confirmed ==> TimeoutDeadline(cfg, c.confirmed[t]) in all;
    assert cfg.maxChannelDuration != 0 ==> forall h :: h in c.builder.heads ==> DurationDeadline(cfg, h) in all;
  }

  /** Filling a channel accounts for what it adds. If the channel is still open after the L1 head was
      registered, the head is among the heads seen, and it is before all deadlines exactly if none of
      their 64-bit sums is zero. */
  lemma FillAccounts(c: Channel, cfg: Config, z: Compressor, blocks: seq<Block>, l1Head: u64)
    requires Steady(z) && ChannelValid(c, z) && !IsFull(c.builder) && cfg.maxFrameSize > FRAME_OVERHEAD
    requires Accounted(c, cfg)
    ensures var (c', _, failed) := Fill(c, cfg, z, blocks, l1Head);
            && Accounted(c', cfg)
            && (!failed ==> l1Head in c'.builder.heads)
            && (!failed && !IsFull(c'.builder) ==> (BeforeDeadlines(c', cfg, l1Head) <==> 0 !in Deadlines(c', cfg)))
  {
    hide FramesPartitioned, Earliest, Flat, ProcessBlocks, OutputFrames, Deadlines, DurationDeadline, Steady;
    ProcessBlocksKeeps(c, cfg, z, blocks);
    ProcessBlocksAccounts(c, cfg, z, blocks);
    var (b1, n, failed) := ProcessBlocks(c.builder, cfg, z, blocks);
    if !failed {
      var c2 := c.(builder := RegisterL1Block(b1, cfg, l1Head));
      RegisterKeeps(c.(builder := b1), cfg, z, l1Head);
      RegisterKeepsEarliest(b1, cfg, l1Head);
      RegisterAccounts(c.(builder := b1), cfg, l1Head);
      OutputFramesKeeps(c2, cfg, z);
      SameDeadlines(c2, c2.(builder := OutputFrames(c2.builder, cfg, z).value), cfg);
      if !IsFull(c2.builder) {
        OpenBefore(c2, cfg, l1Head);
        BeforeAll(c2, cfg, l1Head);
      }
    }
  }

  /** Frames and pending transactions have no part in the deadlines. */
  lemma SameDeadlines(c: Channel, c': Channel, cfg: Config)
    requires c'.builder.blocks == c.builder.blocks && c'.builder.heads == c.builder.heads
    requires c'.builder.deadlines == c.builder.deadlines && c'.confirmed == c.confirmed
    ensures Deadlines(c', cfg) == Deadlines(c, cfg) && (Accounted(c', cfg) <==> Accounted(c, cfg))
    ensures forall l1Block :: BeforeDeadlines(c', cfg, l1Block) <==> BeforeDeadlines(c, cfg, l1Block)
  {
  }

  lemma OpenBefore(c: Channel, cfg: Config, l1Block: u64)
    requires Accounted(c, cfg) && c.builder.timeout == Earliest(c.builder.deadlines)
    requires c.builder.timeout == 0 || l1Block < c.builder.timeout
    ensures 0 !in Deadlines(c, cfg) <==> forall x :: x in Deadlines(c, cfg) ==> l1Block < x
  {
    hide Deadlines, Accounted;
    if 0 !in Deadlines(c, cfg) {
      TimeoutIsEarliest(c, cfg);
    }
  }
}
