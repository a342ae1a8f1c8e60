/** The batcher's channel manager as a state machine over its public calls, each an atomic step, and
    what every run of it keeps: the index of transactions, the shape of the queue, and every block. */
module Manager {
  import opened Words
  import opened Sentinel
  import opened Channels

  /** Channels are named by their ids, and those no longer queued are kept: transactions still refer to
      them. `submitted` lists the channels that left the queue because they were fully submitted. */
  datatype State = State(
    blocks: seq<Block>,
    tip: nat, // 0 before the first block
    current: Option<nat>,
    queue: seq<nat>,
    txChannels: map<TxId, nat>,
    channels: map<nat, Channel>,
    submitted: seq<nat>)

  const EMPTY: State := State([], 0, None, [], map[], map[], [])

  datatype TxResult = Tx(frame: Frame) | Eof | Failed

  // ------------------------------------------------------------------ invariants

  predicate Distinct(s: seq<nat>) {
    forall i, j :: 0 <= i < j < |s| ==> s[i] != s[j]
  }

  ghost predicate ChannelsValid(m: State, z: Compressor) {
    forall id :: id in m.channels ==> m.channels[id].builder.id == id && ChannelValid(m.channels[id], z)
  }

  /** A transaction is indexed exactly while it is pending in its channel, queued or not. */
  ghost predicate IndexAgrees(m: State) {
    && (forall t :: t in m.txChannels ==>
          m.txChannels[t] == t.channel && t.channel in m.channels && t in m.channels[t.channel].pending)
    && (forall id, t :: id in m.channels && t in m.channels[id].pending ==> t in m.txChannels)
  }

  /** The current channel is queued, and every other queued channel is full. */
  ghost predicate QueueShape(m: State) {
    && Distinct(m.queue) && (forall id :: id in m.queue ==> id in m.channels)
    && (m.current.Some? ==> m.current.value in m.queue)
    && (forall id :: id in m.queue && m.current != Some(id) ==> IsFull(m.channels[id].builder))
  }

  /** Submitted channels are complete on L1 and out of the queue. */
  ghost predicate SubmittedComplete(m: State, cfg: Config, z: Compressor) {
    && Distinct(m.submitted)
    && forall id :: id in m.submitted ==> id in m.channels && id !in m.queue && CompleteOnL1(m.channels[id], cfg, z)
  }

  /** A channel leaves the queue only when it is submitted or when it has timed out. */
  ghost predicate OthersTimedOut(m: State, cfg: Config) {
    forall id :: id in m.channels && id !in m.queue && id !in m.submitted ==> SpanReached(m.channels[id].confirmed, cfg.channelTimeout)
  }

  /** Every channel has registered exactly the deadlines it has to meet. */
  ghost predicate DeadlinesAccounted(m: State, cfg: Config) {
    forall id :: id in m.channels ==> Accounted(m.channels[id], cfg)
  }

  ghost predicate Valid(m: State, cfg: Config, z: Compressor) {
    && ChannelsValid(m, z) && IndexAgrees(m) && QueueShape(m) && SubmittedComplete(m, cfg, z) && OthersTimedOut(m, cfg)
    && DeadlinesAccounted(m, cfg)
  }

  // ------------------------------------------------------------------ the calls

  function AddL2Block(m: State, block: Block): (State, bool) {
    if m.tip != 0 && m.tip != block.parentHash then (m, false) // reorg
    else (m.(blocks := m.blocks + [block], tip := block.hash), true)
  }

  /** The earliest queued channel that has a frame. */
  function FirstWithFrame(queue: seq<nat>, channels: map<nat, Channel>): (r: Option<nat>)
    requires forall id :: id in queue ==> id in channels
    ensures r.Some? ==> r.value in queue && channels[r.value].builder.frames != []
    ensures r.None? ==> forall id :: id in queue ==> channels[id].builder.frames == []
  {
    if queue == [] then None
    else if channels[queue[0]].builder.frames != [] then Some(queue[0])
    else FirstWithFrame(queue[1..], channels)
  }

  function TakeFrame(m: State, id: nat): (State, TxResult)
    requires id in m.channels && m.channels[id].builder.frames != []
  {
    var (c, f) := NextTxData(m.channels[id]);
    (m.(channels := m.channels[id := c], txChannels := m.txChannels[f.id := id]), Tx(f))
  }

  /** A channel with space: the current one, or a new one under a fresh id. */
  function EnsureSpace(m: State, newId: nat): (r: (State, nat))
    requires m.current.Some? ==> m.current.value in m.channels
    ensures r.1 in r.0.channels
  {
    if m.current.Some? && !IsFull(m.channels[m.current.value].builder) then (m, m.current.value)
    else (m.(current := Some(newId), queue := m.queue + [newId], channels := m.channels[newId := NewChannel(newId)]), newId)
  }

  ghost function TxData(m: State, cfg: Config, z: Compressor, l1Head: u64, newId: nat): (State, TxResult)
    requires Valid(m, cfg, z) && Steady(z) && cfg.maxFrameSize > FRAME_OVERHEAD && newId !in m.channels
  {
    var first := FirstWithFrame(m.queue, m.channels);
    if first.Some? then TakeFrame(m, first.value)
    else if m.blocks == [] then (m, Eof)
    else
      EnsureSpaceKeeps(m, cfg, z, newId);
      var (m1, id) := EnsureSpace(m, newId);
      FillKeeps(m1.channels[id], cfg, z, m.blocks, l1Head);
      var (c, n, failed) := Fill(m1.channels[id], cfg, z, m.blocks, l1Head);
      Deliver(m1.(channels := m1.channels[id := c]), id, n, failed)
  }

  /** The end of TxData: drop the n blocks now in the channel and take its first frame. After a failure
      the blocks already added stay in the channel and in the list. */
  function Deliver(m: State, id: nat, n: nat, failed: bool): (State, TxResult)
    requires id in m.channels && n <= |m.blocks|
  {
    if failed then (m, Failed)
    else
      var m' := m.(blocks := m.blocks[n..]);
      if m.channels[id].builder.frames == [] then (m', Eof) else TakeFrame(m', id)
  }

  /** The queue without the first occurrence of the channel. */
  function Without(queue: seq<nat>, id: nat): seq<nat> {
    if queue == [] then [] else if queue[0] == id then queue[1..] else [queue[0]] + Without(queue[1..], id)
  }

  function Remove(m: State, id: nat): State {
    m.(current := if m.current == Some(id) then None else m.current, queue := Without(m.queue, id))
  }

  ghost function TxConfirmed(m: State, cfg: Config, id: TxId, inclusion: u64): State
    requires IndexAgrees(m)
  {
    if id !in m.txChannels then m
    else
      var ch := m.txChannels[id];
      var (c, verdict) := Channels.TxConfirmed(m.channels[ch], cfg, id, inclusion);
      Settle(m.(txChannels := m.txChannels - {id}, channels := m.channels[ch := c]), ch, verdict)
  }

  /** What the verdict on a channel does to the manager. */
  function Settle(m: State, ch: nat, verdict: Verdict): State
    requires ch in m.channels
  {
    match verdict
    case TimedOutChannel => Remove(m.(blocks := m.channels[ch].builder.blocks + m.blocks), ch)
    case Done => Remove(m.(submitted := m.submitted + [ch]), ch)
    case _ => m
  }

  function TxFailed(m: State, id: TxId): State
    requires id in m.txChannels ==> m.txChannels[id] in m.channels
  {
    if id !in m.txChannels then m
    else
      var ch := m.txChannels[id];
      m.(txChannels := m.txChannels - {id}, channels := m.channels[ch := Channels.TxFailed(m.channels[ch], id)])
  }

  // ------------------------------------------------------------------ each call keeps the invariants

  lemma EnsureSpaceKeeps(m: State, cfg: Config, z: Compressor, newId: nat)
    requires Valid(m, cfg, z) && newId !in m.channels
    ensures var (m1, id) := EnsureSpace(m, newId);
            && Valid(m1, cfg, z) && m1.current == Some(id) && id in m1.queue
            && ChannelValid(m1.channels[id], z) && m1.channels[id].builder.id == id && !IsFull(m1.channels[id].builder)
            && Accounted(m1.channels[id], cfg)
            && id !in m1.submitted && m1.blocks == m.blocks && m1.submitted == m.submitted
  {
    hide ChannelValid, CompleteOnL1, Accounted;
    NewChannelValid(newId, z);
    AccountedNew(newId, cfg);
    var (m1, id) := EnsureSpace(m, newId);
    assert id in m1.queue by {
      if id == newId {
        assert m1.queue[|m1.queue| - 1] == id;
      }
    }
  }

  /** Replacing one channel and its transactions' index entries. */
  lemma ReplaceKeeps(m: State, cfg: Config, z: Compressor, id: nat, c: Channel, tx: map<TxId, nat>)
    requires Valid(m, cfg, z) && id in m.channels && id !in m.submitted
    requires c.builder.id == id && ChannelValid(c, z) && Accounted(c, cfg)
    requires IsFull(c.builder) || m.current == Some(id) || id !in m.queue
    requires id !in m.queue ==> SpanReached(c.confirmed, cfg.channelTimeout)
    requires forall t :: t in c.pending ==> t.channel == id
    requires forall t :: t in tx <==> if t.channel == id then t in c.pending else t in m.txChannels
    requires forall t :: t in tx ==> tx[t] == t.channel
    ensures Valid(m.(channels := m.channels[id := c], txChannels := tx), cfg, z)
  {
    hide ChannelValid, CompleteOnL1, IsFull, IndexAgrees, SpanReached, Accounted;
    IndexReplace(m, z, id, c, tx);
  }

  lemma IndexReplace(m: State, z: Compressor, id: nat, c: Channel, tx: map<TxId, nat>)
    requires ChannelsValid(m, z) && IndexAgrees(m) && id in m.channels
    requires forall t :: t in c.pending ==> t.channel == id
    requires forall t :: t in tx <==> if t.channel == id then t in c.pending else t in m.txChannels
    requires forall t :: t in tx ==> tx[t] == t.channel
    ensures IndexAgrees(m.(channels := m.channels[id := c], txChannels := tx))
  {
    hide ChannelValid;
    forall i | i in m.channels
      ensures forall t :: t in m.channels[i].pending ==> t.channel == i
    {
      PendingOwn(m.channels[i], z);
    }
  }

  lemma PendingOwn(c: Channel, z: Compressor)
    requires ChannelValid(c, z)
    ensures forall t :: t in c.pending ==> t.channel == c.builder.id && c.pending[t].id == t
    ensures forall f :: f in c.builder.frames ==> f.id.channel == c.builder.id
  {
  }

  lemma TakeFrameKeeps(m: State, cfg: Config, z: Compressor, id: nat)
    requires Valid(m, cfg, z) && id in m.channels && m.channels[id].builder.frames != []
    ensures Valid(TakeFrame(m, id).0, cfg, z)
  {
    hide ChannelValid, QueuedIds, Accounted;
    NextTxDataKeeps(m.channels[id], z);
    SameDeadlines(m.channels[id], NextTxData(m.channels[id]).0, cfg);
    var c := NextTxData(m.channels[id]).0;
    PendingOwn(m.channels[id], z);
    PendingOwn(c, z);
    ReplaceKeeps(m, cfg, z, id, c, m.txChannels[m.channels[id].builder.frames[0].id := id]);
  }

  /** The current channel with more blocks and frames, its transactions as before. */
  lemma RefillKeeps(m: State, cfg: Config, z: Compressor, id: nat, c: Channel)
    requires Valid(m, cfg, z) && m.current == Some(id) && id in m.channels && id !in m.submitted
    requires c.builder.id == id && ChannelValid(c, z) && Accounted(c, cfg) && c.pending == m.channels[id].pending
    ensures Valid(m.(channels := m.channels[id := c], txChannels := m.txChannels), cfg, z)
  {
    hide ChannelValid, CompleteOnL1, SpanReached, IsFull, Accounted;
    PendingOwn(c, z);
    ReplaceKeeps(m, cfg, z, id, c, m.txChannels);
  }

  lemma ListKeeps(m: State, cfg: Config, z: Compressor, blocks: seq<Block>)
    requires Valid(m, cfg, z)
    ensures Valid(m.(blocks := blocks), cfg, z)
  {
    hide ChannelValid, CompleteOnL1, SpanReached, IsFull;
  }

  /** Every call of TxData keeps the invariants. */
  lemma TxDataKeeps(m: State, cfg: Config, z: Compressor, l1Head: u64, newId: nat)
    requires Valid(m, cfg, z) && Steady(z) && cfg.maxFrameSize > FRAME_OVERHEAD && newId !in m.channels
    ensures Valid(TxData(m, cfg, z, l1Head, newId).0, cfg, z)
  {
    hide ChannelValid, Fill, TakeFrame, Accounted, BeforeDeadlines, EnsureSpace, ChannelsValid, IndexAgrees, SubmittedComplete, OthersTimedOut, DeadlinesAccounted;
    var first := FirstWithFrame(m.queue, m.channels);
    if first.Some? {
      TakeFrameKeeps(m, cfg, z, first.value);
    } else if m.blocks != [] {
      EnsureSpaceKeeps(m, cfg, z, newId);
      var (m1, id) := EnsureSpace(m, newId);
      FillKeeps(m1.channels[id], cfg, z, m.blocks, l1Head);
      FillAccounts(m1.channels[id], cfg, z, m.blocks, l1Head);
      var (c, n, failed) := Fill(m1.channels[id], cfg, z, m.blocks, l1Head);
      RefillKeeps(m1, cfg, z, id, c);
      var m2 := m1.(channels := m1.channels[id := c], txChannels := m1.txChannels);
      var m3 := m2.(blocks := m.blocks[n..]);
      ListKeeps(m2, cfg, z, m.blocks[n..]);
      if !failed && c.builder.frames != [] {
        TakeFrameKeeps(m3, cfg, z, id);
      }
    }
  }

  lemma {:induction false} WithoutElements(queue: seq<nat>, id: nat)
    requires Distinct(queue)
    ensures Distinct(Without(queue, id))
    ensures forall x :: x in Without(queue, id) <==> x in queue && x != id
  {
    if queue != [] {
      var rest := Without(queue[1..], id);
      WithoutElements(queue[1..], id);
      assert queue == [queue[0]] + queue[1..];
      assert Distinct([queue[0]] + rest) by {
        assert queue[0] !in queue[1..];
        assert queue[0] !in rest;
      }
    }
  }

  lemma RemoveKeeps(m: State, cfg: Config, z: Compressor, id: nat)
    requires Valid(m, cfg, z) && id in m.channels && SpanReached(m.channels[id].confirmed, cfg.channelTimeout)
    ensures Valid(Remove(m, id), cfg, z)
  {
    hide ChannelValid, CompleteOnL1, Without, IsFull, SpanReached;
    WithoutElements(m.queue, id);
  }

  lemma TxConfirmedKeeps(m: State, cfg: Config, z: Compressor, id: TxId, inclusion: u64)
    requires Valid(m, cfg, z)
    ensures Valid(TxConfirmed(m, cfg, id, inclusion), cfg, z)
  {
    hide Valid, ChannelValid, CompleteOnL1, SpanReached, FullySubmitted, Remove, FramePublished;
    if id in m.txChannels {
      var ch := m.txChannels[id];
      ConfirmInPlace(m, cfg, z, id, inclusion);
      var (c, verdict) := Channels.TxConfirmed(m.channels[ch], cfg, id, inclusion);
      var m1 := m.(txChannels := m.txChannels - {id}, channels := m.channels[ch := c]);
      match verdict {
        case TimedOutChannel =>
          ListKeeps(m1, cfg, z, c.builder.blocks + m.blocks);
          RemoveKeeps(m1.(blocks := c.builder.blocks + m.blocks), cfg, z, ch);
        case Done =>
          DoneMeansComplete(m.channels[ch], cfg, z, id, inclusion);
          SubmitKeeps(m1, cfg, z, ch);
        case Open =>
        case Ignored =>
      }
    }
  }

  /** The confirmed channel and the index, before the channel possibly leaves the queue. */
  lemma ConfirmInPlace(m: State, cfg: Config, z: Compressor, id: TxId, inclusion: u64)
    requires Valid(m, cfg, z) && id in m.txChannels
    ensures var ch := m.txChannels[id];
            && ch in m.channels && ch !in m.submitted && id in m.channels[ch].pending && ChannelValid(m.channels[ch], z)
            && Valid(m.(txChannels := m.txChannels - {id}, channels := m.channels[ch := Confirm(m.channels[ch], cfg, id, inclusion)]), cfg, z)
  {
    hide ChannelValid, CompleteOnL1, SpanReached, Confirm, Accounted;
    var ch := m.txChannels[id];
    var c0 := m.channels[ch];
    ConfirmKeeps(c0, cfg, z, id, inclusion);
    NotYetConfirmed(c0, z, id);
    ConfirmAccounts(c0, cfg, id, inclusion);
    var c := Confirm(c0, cfg, id, inclusion);
    PendingOwn(c, z);
    ConfirmedChannel(c0, cfg, z, id, inclusion);
    if SpanReached(c0.confirmed, cfg.channelTimeout) {
      SpanStays(c0, z, id, inclusion, cfg.channelTimeout);
    }
    NotSubmitted(m, cfg, z, ch, id);
    ReplaceKeeps(m, cfg, z, ch, c, m.txChannels - {id});
  }

  /** A confirmation adds to the confirmed transactions, so a timed-out channel stays timed out. */
  lemma SpanStays(c: Channel, z: Compressor, id: TxId, inclusion: u64, timeout: u64)
    requires ChannelValid(c, z) && id in c.pending && SpanReached(c.confirmed, timeout)
    ensures SpanReached(c.confirmed[id := inclusion], timeout)
  {
    hide Genuine, BuilderValid;
    assert id !in c.confirmed;
    var s, t :| s in c.confirmed && t in c.confirmed && c.confirmed[t] - c.confirmed[s] >= timeout;
    var confirmed := c.confirmed[id := inclusion];
    assert s in confirmed && t in confirmed && confirmed[t] - confirmed[s] >= timeout;
  }

  lemma NotYetConfirmed(c: Channel, z: Compressor, id: TxId)
    requires ChannelValid(c, z) && id in c.pending
    ensures id !in c.confirmed
  {
  }

  /** A submitted channel has nothing pending. */
  lemma NotSubmitted(m: State, cfg: Config, z: Compressor, ch: nat, id: TxId)
    requires SubmittedComplete(m, cfg, z) && ch in m.channels && id in m.channels[ch].pending
    ensures ch !in m.submitted
  {
  }

  lemma ConfirmedChannel(c: Channel, cfg: Config, z: Compressor, id: TxId, inclusion: u64)
    requires ChannelValid(c, z) && id in c.pending
    ensures var c' := Confirm(c, cfg, id, inclusion);
            && c'.builder.id == c.builder.id && c'.builder.fullErr == c.builder.fullErr && c'.builder.blocks == c.builder.blocks
            && c'.pending == c.pending - {id} && c'.confirmed == c.confirmed[id := inclusion]
  {
  }

  /** Moving a complete channel out of the queue. */
  lemma SubmitKeeps(m: State, cfg: Config, z: Compressor, ch: nat)
    requires Valid(m, cfg, z) && ch in m.channels && ch !in m.submitted && CompleteOnL1(m.channels[ch], cfg, z)
    ensures Valid(Remove(m.(submitted := m.submitted + [ch]), ch), cfg, z)
  {
    hide ChannelValid, CompleteOnL1, Without, IsFull, SpanReached;
    WithoutElements(m.queue, ch);
  }

  lemma TxFailedKeeps(m: State, cfg: Config, z: Compressor, id: TxId)
    requires Valid(m, cfg, z)
    ensures Valid(TxFailed(m, id), cfg, z)
  {
    hide ChannelValid, CompleteOnL1;
    if id in m.txChannels {
      var ch := m.txChannels[id];
      Channels.TxFailedKeeps(m.channels[ch], z, id);
      var c := Channels.TxFailed(m.channels[ch], id);
      SameDeadlines(m.channels[ch], c, cfg);
      PendingOwn(c, z);
      NotSubmitted(m, cfg, z, ch, id);
      ReplaceKeeps(m, cfg, z, ch, c, m.txChannels - {id});
    }
  }

  // ------------------------------------------------------------------ what TxData returns

  /** The channel is queued, and no channel queued before it has a frame. */
  ghost predicate EarliestWithFrame(queue: seq<nat>, channels: map<nat, Channel>, ch: nat) {
    exists i :: 0 <= i < |queue| && queue[i] == ch && FramelessBefore(queue, channels, i)
  }

  ghost predicate FramelessBefore(queue: seq<nat>, channels: map<nat, Channel>, i: nat)
    requires i <= |queue|
  {
    forall j :: 0 <= j < i ==> queue[j] in channels && channels[queue[j]].builder.frames == []
  }

  lemma {:induction false} FirstWithFrameIsFirst(queue: seq<nat>, channels: map<nat, Channel>, c: Channel)
    requires Distinct(queue) && forall id :: id in queue ==> id in channels
    ensures var r := FirstWithFrame(queue, channels);
            r.Some? ==> EarliestWithFrame(queue, channels[r.value := c], r.value)
    decreases |queue|
  {
    if queue != [] && channels[queue[0]].builder.frames == [] {
      FirstWithFrameIsFirst(queue[1..], channels, c);
      var r := FirstWithFrame(queue[1..], channels);
      if r.Some? {
        var channels' := channels[r.value := c];
        var i :| 0 <= i < |queue[1..]| && queue[1..][i] == r.value && FramelessBefore(queue[1..], channels', i);
        assert queue[i + 1] == r.value;
        assert FramelessBefore(queue, channels', i + 1);
      }
    } else if queue != [] {
      assert FramelessBefore(queue, channels[queue[0] := c], 0);
    }
  }

  lemma OnlyOneWithFrames(queue: seq<nat>, channels: map<nat, Channel>, ch: nat, c: Channel)
    requires Distinct(queue) && ch in queue
    requires forall id :: id in queue ==> id in channels && (id != ch ==> channels[id].builder.frames == [])
    ensures EarliestWithFrame(queue, channels[ch := c], ch)
  {
    var i :| 0 <= i < |queue| && queue[i] == ch;
    assert FramelessBefore(queue, channels[ch := c], i);
  }

  /** A returned frame is genuine, becomes pending, and comes from the earliest queued channel that has
      one: no channel queued before it has a frame left. */
  lemma TxDataFromEarliest(m: State, cfg: Config, z: Compressor, l1Head: u64, newId: nat)
    requires Valid(m, cfg, z) && Steady(z) && cfg.maxFrameSize > FRAME_OVERHEAD && newId !in m.channels
    ensures var (m', r) := TxData(m, cfg, z, l1Head, newId);
            r.Tx? ==>
              var ch := r.frame.id.channel;
              && ch in m'.channels && Genuine(m'.channels[ch].builder, r.frame)
              && r.frame.id in m'.channels[ch].pending && r.frame.id in m'.txChannels
              && EarliestWithFrame(m'.queue, m'.channels, ch)
  {
    hide ChannelValid, Fill, Accounted, BeforeDeadlines, Deadlines, EnsureSpace, ChannelsValid, IndexAgrees, SubmittedComplete, OthersTimedOut, DeadlinesAccounted, EarliestWithFrame, TakeFrame, Genuine, IsFull;
    var first := FirstWithFrame(m.queue, m.channels);
    if first.Some? {
      FirstWithFrameIsFirst(m.queue, m.channels, NextTxData(m.channels[first.value]).0);
      HeadFrame(m, cfg, z, first.value);
    } else if m.blocks != [] {
      EnsureSpaceKeeps(m, cfg, z, newId);
      EnsureSpaceEmpty(m, newId);
      var (m1, id) := EnsureSpace(m, newId);
      FillKeeps(m1.channels[id], cfg, z, m.blocks, l1Head);
      FillAccounts(m1.channels[id], cfg, z, m.blocks, l1Head);
      var (c, n, failed) := Fill(m1.channels[id], cfg, z, m.blocks, l1Head);
      RefillKeeps(m1, cfg, z, id, c);
      var m2 := m1.(channels := m1.channels[id := c], txChannels := m1.txChannels);
      var m3 := m2.(blocks := m.blocks[n..]);
      ListKeeps(m2, cfg, z, m.blocks[n..]);
      if !failed && c.builder.frames != [] {
        HeadFrame(m3, cfg, z, id);
        OnlyOneWithFrames(m3.queue, m3.channels, id, NextTxData(c).0);
      }
    }
  }

  lemma HeadFrame(m: State, cfg: Config, z: Compressor, id: nat)
    requires Valid(m, cfg, z) && id in m.channels && m.channels[id].builder.frames != []
    ensures var f := m.channels[id].builder.frames[0];
            var (m', r) := TakeFrame(m, id);
            && r == Tx(f) && f.id.channel == id && Genuine(m'.channels[id].builder, f)
            && f.id in m'.channels[id].pending && f.id in m'.txChannels
            && m'.queue == m.queue && m'.channels == m.channels[id := NextTxData(m.channels[id]).0]
  {
    hide BuilderValid, CompleteOnL1, QueueShape, IndexAgrees, OthersTimedOut, DeadlinesAccounted, QueuedIds;
    assert ChannelValid(m.channels[id], z);
  }

  lemma EnsureSpaceEmpty(m: State, newId: nat)
    requires QueueShape(m) && newId !in m.channels
    requires forall id :: id in m.queue ==> m.channels[id].builder.frames == []
    ensures var (m1, id) := EnsureSpace(m, newId);
            forall q :: q in m1.queue ==> q in m1.channels && m1.channels[q].builder.frames == []
  {
    hide IsFull;
  }

  /** Deadline safety: if TxData registers the L1 head and leaves the channel open, the head is before the
      end of the sequencing window of every block in the channel, before the channel timeout of each of its
      confirmed frames, and within the maximum duration since every head registered at the channel, this
      one included; this exactly if none of these 64-bit sums is zero. Whatever is zero, the head is before
      every deadline registered since the last zero one. */
  lemma TxDataBeforeDeadlines(m: State, cfg: Config, z: Compressor, l1Head: u64, newId: nat)
    requires Valid(m, cfg, z) && Steady(z) && cfg.maxFrameSize > FRAME_OVERHEAD && newId !in m.channels
    requires FirstWithFrame(m.queue, m.channels).None? && m.blocks != []
    ensures var (m', r) := TxData(m, cfg, z, l1Head, newId);
            m'.current.Some? && m'.current.value in m'.channels
            && var c := m'.channels[m'.current.value];
               var d := c.builder.deadlines;
               !r.Failed? && !IsFull(c.builder) ==>
                 && l1Head in c.builder.heads
                 && (BeforeDeadlines(c, cfg, l1Head) <==> 0 !in Deadlines(c, cfg))
                 && (forall k :: SinceZero(d) <= k < |d| ==> l1Head < d[k])
                 && (cfg.maxChannelDuration != 0 ==> d != [] && d[|d| - 1] == DurationDeadline(cfg, l1Head))
  {
    hide ChannelValid, Fill, Accounted, BeforeDeadlines, Deadlines, EnsureSpace, ChannelsValid, IndexAgrees, SubmittedComplete, OthersTimedOut, DeadlinesAccounted, SinceZero, DurationDeadline;
    EnsureSpaceKeeps(m, cfg, z, newId);
    var (m1, id) := EnsureSpace(m, newId);
    FillKeeps(m1.channels[id], cfg, z, m.blocks, l1Head);
    FillAccounts(m1.channels[id], cfg, z, m.blocks, l1Head);
    var (c, n, failed) := Fill(m1.channels[id], cfg, z, m.blocks, l1Head);
    if c.builder.frames != [] {
      SameDeadlines(c, NextTxData(c).0, cfg);
    }
  }

  /** Over every run: what a channel's timeout means at any time. */
  lemma TimeoutOfChannel(m: State, cfg: Config, z: Compressor, id: nat)
    requires Valid(m, cfg, z) && id in m.channels && 0 !in Deadlines(m.channels[id], cfg)
    ensures var c := m.channels[id];
            && (c.builder.timeout == 0 <==> Deadlines(c, cfg) == {})
            && (c.builder.timeout != 0 ==> c.builder.timeout in Deadlines(c, cfg))
            && forall x :: x in Deadlines(c, cfg) ==> c.builder.timeout <= x
  {
    hide Deadlines, FramesPartitioned, Accounted;
    assert ChannelValid(m.channels[id], z);
    TimeoutIsEarliest(m.channels[id], cfg);
  }

  // ------------------------------------------------------------------ no block is lost

  function BlocksOf(ids: seq<nat>, channels: map<nat, Channel>): multiset<Block> {
    if ids == [] then multiset{}
    else (if ids[0] in channels then multiset(channels[ids[0]].builder.blocks) else multiset{}) + BlocksOf(ids[1..], channels)
  }

  /** Every place a block can be: waiting, in a queued channel, or in a fully submitted one. */
  function Holdings(m: State): multiset<Block> {
    multiset(m.blocks) + BlocksOf(m.queue, m.channels) + BlocksOf(m.submitted, m.channels)
  }

  lemma {:induction false} BlocksOfAppend(ids: seq<nat>, id: nat, channels: map<nat, Channel>)
    requires id in channels
    ensures BlocksOf(ids + [id], channels) == BlocksOf(ids, channels) + multiset(channels[id].builder.blocks)
    decreases |ids|
  {
    if ids != [] {
      BlocksOfAppend(ids[1..], id, channels);
      assert (ids + [id])[1..] == ids[1..] + [id];
    } else {
      assert [id][1..] == [];
    }
  }

  /** Changing channels that are not listed, or not in their blocks, changes nothing. */
  lemma {:induction false} BlocksOfFrame(ids: seq<nat>, channels: map<nat, Channel>, channels': map<nat, Channel>)
    requires forall id :: id in ids ==>
      (id in channels <==> id in channels') && (id in channels ==> channels[id].builder.blocks == channels'[id].builder.blocks)
    ensures BlocksOf(ids, channels) == BlocksOf(ids, channels')
    decreases |ids|
  {
    if ids != [] {
      BlocksOfFrame(ids[1..], channels, channels');
    }
  }

  /** Adding blocks to one listed channel adds them once. */
  lemma {:induction false} BlocksOfGrow(ids: seq<nat>, channels: map<nat, Channel>, id: nat, c: Channel, more: seq<Block>)
    requires Distinct(ids) && id in channels && id in ids && c.builder.blocks == channels[id].builder.blocks + more
    ensures BlocksOf(ids, channels[id := c]) == BlocksOf(ids, channels) + multiset(more)
    decreases |ids|
  {
    if ids[0] == id {
      assert forall x :: x in ids[1..] ==> x != id;
      BlocksOfFrame(ids[1..], channels, channels[id := c]);
    } else {
      BlocksOfGrow(ids[1..], channels, id, c, more);
    }
  }

  lemma {:induction false} BlocksOfWithout(ids: seq<nat>, id: nat, channels: map<nat, Channel>)
    requires id in channels
    ensures if id in ids then BlocksOf(ids, channels) == BlocksOf(Without(ids, id), channels) + multiset(channels[id].builder.blocks)
            else Without(ids, id) == ids
    decreases |ids|
  {
    if ids != [] && ids[0] != id {
      BlocksOfWithout(ids[1..], id, channels);
      assert ([ids[0]] + Without(ids[1..], id))[1..] == Without(ids[1..], id);
    }
  }

  lemma HoldingsFrame(m: State, m': State)
    requires m'.blocks == m.blocks && m'.queue == m.queue && m'.submitted == m.submitted
    requires m.channels.Keys <= m'.channels.Keys && (forall id :: id in m.queue || id in m.submitted ==> id in m.channels)
    requires forall id :: id in m.channels ==> m'.channels[id].builder.blocks == m.channels[id].builder.blocks
    ensures Holdings(m') == Holdings(m)
  {
    BlocksOfFrame(m.queue, m.channels, m'.channels);
    BlocksOfFrame(m.submitted, m.channels, m'.channels);
  }

  /** A block accepted by AddL2Block is held once more. */
  lemma AddL2BlockHoldings(m: State, block: Block)
    ensures var (m', ok) := AddL2Block(m, block);
            Holdings(m') == Holdings(m) + if ok then multiset{block} else multiset{}
  {
  }

  /** Copies TxData makes: after a failure, the blocks added before it are in the channel and in the list. */
  ghost function FailureCopies(m: State, cfg: Config, z: Compressor, newId: nat, l1Head: u64): multiset<Block>
    requires Valid(m, cfg, z) && Steady(z) && cfg.maxFrameSize > FRAME_OVERHEAD && newId !in m.channels
  {
    if FirstWithFrame(m.queue, m.channels).Some? || m.blocks == [] then multiset{}
    else
      EnsureSpaceKeeps(m, cfg, z, newId);
      var (m1, id) := EnsureSpace(m, newId);
      FillKeeps(m1.channels[id], cfg, z, m.blocks, l1Head);
      var (c, n, failed) := Fill(m1.channels[id], cfg, z, m.blocks, l1Head);
      if failed then multiset(m.blocks[..n]) else multiset{}
  }

  lemma EnsureSpaceHoldings(m: State, cfg: Config, z: Compressor, newId: nat)
    requires Valid(m, cfg, z) && newId !in m.channels
    ensures Holdings(EnsureSpace(m, newId).0) == Holdings(m)
  {
    hide ChannelValid, CompleteOnL1;
    var (m1, id) := EnsureSpace(m, newId);
    BlocksOfFrame(m.queue, m.channels, m1.channels);
    BlocksOfFrame(m.submitted, m.channels, m1.channels);
    if id == newId && m1 != m {
      BlocksOfAppend(m.queue, id, m1.channels);
    }
  }

  lemma TakeFrameHoldings(m: State, cfg: Config, z: Compressor, id: nat)
    requires Valid(m, cfg, z) && id in m.channels && m.channels[id].builder.frames != []
    ensures Holdings(TakeFrame(m, id).0) == Holdings(m)
  {
    hide ChannelValid, CompleteOnL1, Holdings;
    HoldingsFrame(m, TakeFrame(m, id).0);
  }

  /** TxData moves blocks from the list into the current channel and loses none. */
  lemma TxDataHoldings(m: State, cfg: Config, z: Compressor, l1Head: u64, newId: nat)
    requires Valid(m, cfg, z) && Steady(z) && cfg.maxFrameSize > FRAME_OVERHEAD && newId !in m.channels
    ensures Holdings(TxData(m, cfg, z, l1Head, newId).0) == Holdings(m) + FailureCopies(m, cfg, z, newId, l1Head)
  {
    hide ChannelValid, Fill, TakeFrame, Accounted, BeforeDeadlines, EnsureSpace, ChannelsValid, IndexAgrees, SubmittedComplete, OthersTimedOut, DeadlinesAccounted, Holdings, BlocksOf;
    var first := FirstWithFrame(m.queue, m.channels);
    if first.Some? {
      TakeFrameHoldings(m, cfg, z, first.value);
    } else if m.blocks != [] {
      EnsureSpaceKeeps(m, cfg, z, newId);
      EnsureSpaceHoldings(m, cfg, z, newId);
      var (m1, id) := EnsureSpace(m, newId);
      FillKeeps(m1.channels[id], cfg, z, m.blocks, l1Head);
      FillAccounts(m1.channels[id], cfg, z, m.blocks, l1Head);
      var (c, n, failed) := Fill(m1.channels[id], cfg, z, m.blocks, l1Head);
      RefillKeeps(m1, cfg, z, id, c);
      FillHoldings(m1, id, c, n);
      var m2 := m1.(channels := m1.channels[id := c], txChannels := m1.txChannels);
      var m3 := m2.(blocks := m.blocks[n..]);
      ListKeeps(m2, cfg, z, m.blocks[n..]);
      if !failed && c.builder.frames != [] {
        TakeFrameHoldings(m3, cfg, z, id);
      }
    }
  }

  /** The channel takes the first n waiting blocks; kept in the list too, they are held twice. */
  lemma FillHoldings(m: State, id: nat, c: Channel, n: nat)
    requires QueueShape(m) && id in m.queue && id !in m.submitted && n <= |m.blocks|
    requires c.builder.blocks == m.channels[id].builder.blocks + m.blocks[..n]
    ensures Holdings(m.(channels := m.channels[id := c], blocks := m.blocks[n..])) == Holdings(m)
    ensures Holdings(m.(channels := m.channels[id := c])) == Holdings(m) + multiset(m.blocks[..n])
  {
    hide IsFull;
    BlocksOfGrow(m.queue, m.channels, id, c, m.blocks[..n]);
    BlocksOfFrame(m.submitted, m.channels, m.channels[id := c]);
    assert m.blocks == m.blocks[..n] + m.blocks[n..];
  }

  /** Copies a late receipt makes: it confirms a transaction of a channel that timed out before and is
      no longer queued, and puts that channel's blocks back once more. */
  function LateCopies(m: State, id: TxId): multiset<Block>
    requires id in m.txChannels ==> m.txChannels[id] in m.channels
  {
    if id in m.txChannels && m.txChannels[id] !in m.queue
    then multiset(m.channels[m.txChannels[id]].builder.blocks)
    else multiset{}
  }

  /** A confirmation moves a timed-out channel's blocks back to the list, or marks them submitted. */
  lemma TxConfirmedHoldings(m: State, cfg: Config, z: Compressor, id: TxId, inclusion: u64)
    requires Valid(m, cfg, z)
    ensures Holdings(TxConfirmed(m, cfg, id, inclusion)) == Holdings(m) + LateCopies(m, id)
  {
    hide ChannelValid, CompleteOnL1, SpanReached, FullySubmitted, FramePublished, Holdings, IsFull, Without, DeadlinesAccounted;
    if id in m.txChannels {
      var ch := m.txChannels[id];
      var c0 := m.channels[ch];
      var (c, verdict) := Channels.TxConfirmed(c0, cfg, id, inclusion);
      ConfirmedChannel(c0, cfg, z, id, inclusion);
      NotSubmitted(m, cfg, z, ch, id);
      if SpanReached(c0.confirmed, cfg.channelTimeout) {
        SpanStays(c0, z, id, inclusion, cfg.channelTimeout);
      }
      var m1 := m.(txChannels := m.txChannels - {id}, channels := m.channels[ch := c]);
      HoldingsFrame(m, m1);
      RemoveHoldings(m1, ch);
    }
  }

  /** Taking a channel out of the queue: with its blocks put back in front of the list, or recorded as
      submitted, they are still held; if it was not queued they are held once more. */
  lemma RemoveHoldings(m: State, ch: nat)
    requires ch in m.channels
    ensures var copies := if ch in m.queue then multiset{} else multiset(m.channels[ch].builder.blocks);
            && Holdings(Remove(m.(blocks := m.channels[ch].builder.blocks + m.blocks), ch)) == Holdings(m) + copies
            && Holdings(Remove(m.(submitted := m.submitted + [ch]), ch)) == Holdings(m) + copies
  {
    BlocksOfWithout(m.queue, ch, m.channels);
    BlocksOfAppend(m.submitted, ch, m.channels);
  }

  lemma TxFailedHoldings(m: State, cfg: Config, z: Compressor, id: TxId)
    requires Valid(m, cfg, z)
    ensures Holdings(TxFailed(m, id)) == Holdings(m)
  {
    hide ChannelValid, CompleteOnL1, Holdings, SpanReached, IsFull;
    HoldingsFrame(m, TxFailed(m, id));
  }

  // ------------------------------------------------------------------ runs

  /** The calls between two calls of Clear; a new channel's random id is among TxData's inputs. */
  datatype Event =
    | Block(block: Channels.Block)
    | Data(l1Head: u64, newChannel: nat)
    | Confirmed(id: TxId, inclusion: u64)
    | TxLost(id: TxId)

  /** Random channel ids do not repeat. */
  predicate FreshId(m: State, e: Event) {
    e.Data? ==> e.newChannel !in m.channels
  }

  ghost function Step(m: State, cfg: Config, z: Compressor, e: Event): State
    requires Valid(m, cfg, z) && Steady(z) && cfg.maxFrameSize > FRAME_OVERHEAD && FreshId(m, e)
  {
    match e
    case Block(b) => AddL2Block(m, b).0
    case Data(l1Head, id) => TxData(m, cfg, z, l1Head, id).0
    case Confirmed(id, inclusion) => TxConfirmed(m, cfg, id, inclusion)
    case TxLost(id) => TxFailed(m, id)
  }

  lemma StepKeeps(m: State, cfg: Config, z: Compressor, e: Event)
    requires Valid(m, cfg, z) && Steady(z) && cfg.maxFrameSize > FRAME_OVERHEAD && FreshId(m, e)
    ensures Valid(Step(m, cfg, z, e), cfg, z)
  {
    hide ChannelValid, CompleteOnL1, TxData, TxConfirmed, TxFailed, IsFull, SpanReached;
    match e {
      case Block(b) =>
      case Data(l1Head, id) => TxDataKeeps(m, cfg, z, l1Head, id);
      case Confirmed(id, inclusion) => TxConfirmedKeeps(m, cfg, z, id, inclusion);
      case TxLost(id) => TxFailedKeeps(m, cfg, z, id);
    }
  }

  /** The block a call accepts. */
  function AcceptedBy(m: State, e: Event): multiset<Channels.Block> {
    if e.Block? && AddL2Block(m, e.block).1 then multiset{e.block} else multiset{}
  }

  /** The copies a call makes: after an error other than a full channel, or for a late receipt. */
  ghost function CopiedBy(m: State, cfg: Config, z: Compressor, e: Event): multiset<Channels.Block>
    requires Valid(m, cfg, z) && Steady(z) && cfg.maxFrameSize > FRAME_OVERHEAD && FreshId(m, e)
  {
    match e
    case Data(l1Head, id) => FailureCopies(m, cfg, z, id, l1Head)
    case Confirmed(id, _) => LateCopies(m, id)
    case _ => multiset{}
  }

  lemma StepHoldings(m: State, cfg: Config, z: Compressor, e: Event)
    requires Valid(m, cfg, z) && Steady(z) && cfg.maxFrameSize > FRAME_OVERHEAD && FreshId(m, e)
    ensures Holdings(Step(m, cfg, z, e)) == Holdings(m) + AcceptedBy(m, e) + CopiedBy(m, cfg, z, e)
  {
    hide ChannelValid, CompleteOnL1, TxData, TxConfirmed, TxFailed, IsFull, SpanReached, Holdings, AddL2Block, FailureCopies, LateCopies, Valid;
    match e {
      case Block(b) => AddL2BlockHoldings(m, b);
      case Data(l1Head, id) => TxDataHoldings(m, cfg, z, l1Head, id);
      case Confirmed(id, inclusion) => TxConfirmedHoldings(m, cfg, z, id, inclusion);
      case TxLost(id) => TxFailedHoldings(m, cfg, z, id);
    }
  }

  /** A run from the cleared manager: the state, every block accepted, and every copy made. None if a
      channel id repeats. After any run the invariants hold, and the blocks held are exactly those
      accepted and the copies: none is lost, and each is held once if no copies were made. */
  ghost function Run(cfg: Config, z: Compressor, events: seq<Event>):
    (r: Option<(State, multiset<Channels.Block>, multiset<Channels.Block>)>)
    requires Steady(z) && cfg.maxFrameSize > FRAME_OVERHEAD
    ensures r.Some? ==> Valid(r.value.0, cfg, z) && Holdings(r.value.0) == r.value.1 + r.value.2
    decreases |events|
  {
    if events == [] then Some((EMPTY, multiset{}, multiset{}))
    else
      var e := events[|events| - 1];
      match Run(cfg, z, events[..|events| - 1])
      case None => None
      case Some((m, accepted, copies)) =>
        if !FreshId(m, e) then None
        else
          StepKeeps(m, cfg, z, e);
          StepHoldings(m, cfg, z, e);
          Some((Step(m, cfg, z, e), accepted + AcceptedBy(m, e), copies + CopiedBy(m, cfg, z, e)))
  }
}
