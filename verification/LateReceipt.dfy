/** A run of the batcher's manager in which a late receipt returns a block a second time. */
module LateReceipt {
  import opened Words
  import opened Channels
  import opened Manager

  // one block fills a channel; one byte a frame: two bytes make three frames, the last one empty
  const CFG: Config := Config(3600, 10, 0, 4, 24)
  const BLOCK: Channels.Block := Channels.Block.Block(1, 0, 5)
  const CH: nat := 7
  const BYTES: Bytes := [1, 2]

  function OneBlock(): Compressor {
    Compressor((blocks, closed) => if closed && blocks != [] then BYTES else [], (blocks, b) => Accepted, blocks => true)
  }

  function F(number: nat): Frame
    requires number <= 2
  {
    Frame(TxId(CH, number), if number < 2 then [BYTES[number]] else [])
  }

  /** The channel's builder once frames are output, with some of them still queued. */
  function Filled(frames: seq<Frame>, timeout: u64, reason: Reason, deadlines: seq<u64>): Builder {
    Builder(CH, [BLOCK], timeout, reason, Some(CompressorFull), true, frames, [[BYTES[0]], [BYTES[1]], []], [6], deadlines)
  }

  lemma FillsOneChannel()
    ensures Steady(OneBlock()) && ChannelValid(NewChannel(CH), OneBlock())
    ensures Fill(NewChannel(CH), CFG, OneBlock(), [BLOCK], 6)
         == (Channel(Filled([F(0), F(1), F(2)], 3601, SeqWindowClose, [3601]), map[], map[]), 1, false)
  {
    var z := OneBlock();
    NewChannelValid(CH, z);
    var (b1, n, failed) := ProcessBlocks(NewBuilder(CH), CFG, z, [BLOCK]);
    assert b1 == Builder(CH, [BLOCK], 3601, SeqWindowClose, Some(CompressorFull), false, [], [], [], [3601]) && n == 1 && !failed;
    var b2 := RegisterL1Block(b1, CFG, 6);
    assert b2 == b1.(heads := [6]);
    ThreeFrames(b2.(closed := true), z);
  }

  lemma ThreeFrames(b: Builder, z: Compressor)
    requires z == OneBlock() && b.closed && b.blocks == [BLOCK] && b.produced == [] && b.frames == [] && b.id == CH
    ensures Ready(b, z) >= 0
    ensures OutputAll(b, CFG, z) == b.(frames := [F(0), F(1), F(2)], produced := [[BYTES[0]], [BYTES[1]], []])
  {
    hide Flat;
    FlatNone();
    OneFrame(b, z, 0);
    var b1 := OutputFrame(b, CFG, z).0;
    OneFrame(b1, z, 1);
    var b2 := OutputFrame(b1, CFG, z).0;
    OneFrame(b2, z, 2);
    assert OutputAll(b2, CFG, z) == OutputFrame(b2, CFG, z).0;
    assert OutputAll(b1, CFG, z) == OutputAll(b2, CFG, z);
  }

  lemma FlatNone()
    ensures Flat([]) == []
  {
  }

  /** Frame k of the channel. */
  lemma OneFrame(b: Builder, z: Compressor, k: nat)
    requires z == OneBlock() && b.closed && b.blocks == [BLOCK] && b.id == CH
    requires k <= 2 && |b.produced| == k && Flat(b.produced) == BYTES[..k]
    ensures Ready(b, z) == 2 - k
    ensures OutputFrame(b, CFG, z) == (b.(frames := b.frames + [F(k)], produced := b.produced + [F(k).data]), k == 2)
    ensures Flat(b.produced + [F(k).data]) == BYTES[..if k < 2 then k + 1 else 2]
  {
    hide Flat;
    FlatAppend(b.produced, F(k).data);
    assert z.stream(b.blocks, b.closed) == BYTES;
    if k < 2 {
      assert BYTES[k..k + 1] == [BYTES[k]] == F(k).data;
    } else {
      assert BYTES[2..2] == F(2).data;
    }
  }

  // ------------------------------------------------------------------ the run

  function T(number: nat): TxId { TxId(CH, number) }

  const SENT_ALL: map<TxId, Frame> := map[T(0) := F(0), T(1) := F(1), T(2) := F(2)]

  /** One more event at the end of a run. */
  lemma RunStep(events: seq<Event>, e: Event, m: State, accepted: multiset<Channels.Block>, copies: multiset<Channels.Block>)
    requires Steady(OneBlock()) && Run(CFG, OneBlock(), events) == Some((m, accepted, copies)) && FreshId(m, e)
    ensures Valid(m, CFG, OneBlock())
    ensures Run(CFG, OneBlock(), events + [e])
         == Some((Step(m, CFG, OneBlock(), e), accepted + AcceptedBy(m, e), copies + CopiedBy(m, CFG, OneBlock(), e)))
  {
    hide Valid, Step, AcceptedBy, CopiedBy, Steady;
    assert (events + [e])[..|events|] == events;
    StepKeeps(m, CFG, OneBlock(), e);
    StepHoldings(m, CFG, OneBlock(), e);
  }

  const WAITING: State := State([BLOCK], 1, None, [], map[], map[], [])

  /** The channel after some of its frames were taken. */
  function Taken(n: nat): Channel
    requires 1 <= n <= 3
  {
    Channel(Filled([F(0), F(1), F(2)][n..], 3601, SeqWindowClose, [3601]),
            if n == 1 then map[T(0) := F(0)] else if n == 2 then map[T(0) := F(0), T(1) := F(1)] else SENT_ALL, map[])
  }

  function Sent(n: nat): State
    requires 1 <= n <= 3
  {
    State([], 1, Some(CH), [CH], map t | t in Taken(n).pending :: CH, map[CH := Taken(n)], [])
  }

  lemma FirstData()
    requires Valid(WAITING, CFG, OneBlock()) && Steady(OneBlock())
    ensures TxData(WAITING, CFG, OneBlock(), 6, CH).0 == Sent(1)
    ensures FailureCopies(WAITING, CFG, OneBlock(), CH, 6) == multiset{}
  {
    hide Fill, Valid, Steady, ChannelValid;
    FillsOneChannel();
    var (m1, id) := EnsureSpace(WAITING, CH);
    assert m1 == State([BLOCK], 1, Some(CH), [CH], map[], map[CH := NewChannel(CH)], []) && id == CH;
  }

  lemma NextData(n: nat, newId: nat)
    requires 1 <= n < 3 && newId != CH && Steady(OneBlock()) && Valid(Sent(n), CFG, OneBlock())
    ensures TxData(Sent(n), CFG, OneBlock(), 6, newId).0 == Sent(n + 1)
    ensures FailureCopies(Sent(n), CFG, OneBlock(), newId, 6) == multiset{}
  {
    hide Valid, Steady;
    assert FirstWithFrame([CH], Sent(n).channels) == Some(CH);
  }

  /** The channel and the manager after receipts. */
  function OneConfirmed(): Channel {
    Channel(Filled([], 106, ChannelTimeoutClose, [3601, 106]), map[T(1) := F(1), T(2) := F(2)], map[T(0) := 100])
  }

  function TwoConfirmed(): Channel {
    Channel(Filled([], 106, ChannelTimeoutClose, [3601, 106, 116]), map[T(2) := F(2)], map[T(0) := 100, T(1) := 110])
  }

  function AfterOne(): State {
    State([], 1, Some(CH), [CH], map[T(1) := CH, T(2) := CH], map[CH := OneConfirmed()], [])
  }

  function AfterTwo(): State {
    State([BLOCK], 1, None, [], map[T(2) := CH], map[CH := TwoConfirmed()], [])
  }

  lemma FirstConfirm()
    ensures Confirm(Taken(3), CFG, T(0), 100) == OneConfirmed()
  {
    assert SENT_ALL - {T(0)} == OneConfirmed().pending;
  }

  lemma FirstVerdict()
    ensures Channels.TxConfirmed(Taken(3), CFG, T(0), 100) == (OneConfirmed(), Open)
  {
    hide Confirm;
    FirstConfirm();
    assert T(1) in OneConfirmed().pending;
  }

  lemma FirstReceipt()
    requires IndexAgrees(Sent(3))
    ensures Manager.TxConfirmed(Sent(3), CFG, T(0), 100) == AfterOne() && LateCopies(Sent(3), T(0)) == multiset{}
  {
    hide Channels.TxConfirmed;
    FirstVerdict();
    assert AfterOne().txChannels == Sent(3).txChannels - {T(0)};
  }

  lemma SecondConfirm()
    ensures Confirm(OneConfirmed(), CFG, T(1), 110) == TwoConfirmed()
  {
    assert OneConfirmed().pending - {T(1)} == TwoConfirmed().pending;
  }

  lemma SecondVerdict()
    ensures Channels.TxConfirmed(OneConfirmed(), CFG, T(1), 110) == (TwoConfirmed(), TimedOutChannel)
  {
    hide Confirm;
    SecondConfirm();
    var confirmed := TwoConfirmed().confirmed;
    assert confirmed[T(1)] - confirmed[T(0)] >= 10;
  }

  /** The inclusion blocks are the channel timeout apart: the block goes back to the list. */
  lemma SecondReceipt()
    requires IndexAgrees(AfterOne())
    ensures Manager.TxConfirmed(AfterOne(), CFG, T(1), 110) == AfterTwo() && LateCopies(AfterOne(), T(1)) == multiset{}
  {
    hide Channels.TxConfirmed;
    SecondVerdict();
    assert AfterTwo().txChannels == AfterOne().txChannels - {T(1)};
    assert [BLOCK] + [] == [BLOCK];
  }

  /** The late receipt puts it back again. */
  lemma ThirdReceipt()
    requires IndexAgrees(AfterTwo())
    ensures Manager.TxConfirmed(AfterTwo(), CFG, T(2), 111).blocks == [BLOCK, BLOCK] && LateCopies(AfterTwo(), T(2)) == multiset{BLOCK}
  {
    var (c, verdict) := Channels.TxConfirmed(TwoConfirmed(), CFG, T(2), 111);
    assert c.confirmed[T(1)] - c.confirmed[T(0)] >= 10;
    assert [BLOCK] + [BLOCK] == [BLOCK, BLOCK];
  }

  /** The run so far ends in m, with one block accepted. */
  ghost predicate Reaches(events: seq<Event>, m: State, copies: multiset<Channels.Block>)
    requires Steady(OneBlock())
  {
    Run(CFG, OneBlock(), events) == Some((m, multiset{BLOCK}, copies))
  }

  lemma NoneMore(s: multiset<Channels.Block>)
    ensures s + multiset{} == s && multiset{} + s == s
  {
  }

  /** The run, event by event. */
  function Run1(): seq<Event> { [Event.Block(BLOCK)] }
  function Run2(): seq<Event> { Run1() + [Data(6, CH)] }
  function Run3(): seq<Event> { Run2() + [Data(6, CH + 1)] }
  function Run4(): seq<Event> { Run3() + [Data(6, CH + 2)] }
  function Run5(): seq<Event> { Run4() + [Confirmed(T(0), 100)] }
  function Run6(): seq<Event> { Run5() + [Confirmed(T(1), 110)] }
  function Run7(): seq<Event> { Run6() + [Confirmed(T(2), 111)] }

  lemma RunToBlock()
    requires Steady(OneBlock())
    ensures Reaches(Run1(), WAITING, multiset{})
  {
    hide Valid, Steady;
    assert Run(CFG, OneBlock(), []) == Some((EMPTY, multiset{}, multiset{}));
    RunStep([], Event.Block(BLOCK), EMPTY, multiset{}, multiset{});
    assert [] + [Event.Block(BLOCK)] == Run1();
    assert EMPTY.blocks + [BLOCK] == [BLOCK];
    NoneMore(multiset{BLOCK});
    NoneMore(multiset{});
  }

  lemma RunToFirstData()
    requires Steady(OneBlock())
    ensures Reaches(Run2(), Sent(1), multiset{})
  {
    hide Run, Valid, TxData, FailureCopies, Steady, Sent, Run1;
    RunToBlock();
    RunStep(Run1(), Data(6, CH), WAITING, multiset{BLOCK}, multiset{});
    FirstData();
    NoneMore(multiset{BLOCK});
    NoneMore(multiset{});
  }

  lemma RunToNextData(events: seq<Event>, n: nat)
    requires Steady(OneBlock()) && 1 <= n < 3 && Reaches(events, Sent(n), multiset{})
    ensures Reaches(events + [Data(6, CH + n)], Sent(n + 1), multiset{})
  {
    hide Run, Valid, TxData, FailureCopies, Steady, Taken;
    RunStep(events, Data(6, CH + n), Sent(n), multiset{BLOCK}, multiset{});
    NextData(n, CH + n);
    NoneMore(multiset{BLOCK});
    NoneMore(multiset{});
  }

  /** A receipt at the end of a run. */
  lemma RunToReceipt(events: seq<Event>, m: State, id: TxId, inclusion: u64)
    requires Steady(OneBlock()) && Reaches(events, m, multiset{})
    ensures IndexAgrees(m)
    ensures Reaches(events + [Confirmed(id, inclusion)], Manager.TxConfirmed(m, CFG, id, inclusion), LateCopies(m, id))
  {
    hide Run, ChannelsValid, SubmittedComplete, OthersTimedOut, QueueShape, DeadlinesAccounted, Manager.TxConfirmed, LateCopies, Steady;
    RunStep(events, Confirmed(id, inclusion), m, multiset{BLOCK}, multiset{});
    NoneMore(multiset{BLOCK});
    NoneMore(LateCopies(m, id));
  }

  /** One block was accepted, and after the receipt for the channel's last transaction it waits twice. */
  lemma LateReceiptCopiesBlock()
    ensures Checked(CFG) && Steady(OneBlock())
    ensures var r := Run(CFG, OneBlock(), Run7());
            && r.Some? && r.value.0.blocks == [BLOCK, BLOCK]
            && r.value.1 == multiset{BLOCK} && r.value.2 == multiset{BLOCK}
  {
    hide Run, Manager.TxConfirmed, LateCopies, Steady, Sent, IndexAgrees, Run1, Run2;
    FillsOneChannel();
    RunToFirstData();
    RunToNextData(Run2(), 1);
    RunToNextData(Run3(), 2);
    RunToReceipt(Run4(), Sent(3), T(0), 100);
    FirstReceipt();
    RunToReceipt(Run5(), AfterOne(), T(1), 110);
    SecondReceipt();
    RunToReceipt(Run6(), AfterTwo(), T(2), 111);
    ThirdReceipt();
  }
}
