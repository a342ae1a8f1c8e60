/** The indexer's header traversal and the ETL loop around it: batches of headers that together form one
    chain without gaps, whatever fails in between. */
module Indexer {
  import opened Words

  datatype Header = Header(number: int, hash: nat, parentHash: nat)

  /** What the node answers during one interval: the latest header, one header by number, and a batch call
      for the inclusive range, each element of which can fail on its own. */
  datatype Provider = Provider(
    latest: Option<Header>,
    byNumber: int -> Option<Header>,
    batch: (int, int) -> Option<seq<Option<Header>>>)

  /** A batch call answers each of its elements. */
  ghost predicate AnswersAll(p: Provider) {
    forall s, e :: s <= e && p.batch(s, e).Some? ==> |p.batch(s, e).value| == e - s + 1
  }

  /** The node serves one chain: every header it returns is the chain's at the height asked for. */
  ghost predicate Honest(p: Provider, chain: int -> Header) {
    && (forall n :: chain(n).number == n)
    && (p.latest.Some? ==> p.latest.value == chain(p.latest.value.number))
    && (forall n :: p.byNumber(n).Some? ==> p.byNumber(n).value == chain(n))
    && (forall s, e :: s <= e && p.batch(s, e).Some? ==> ElementsOf(chain, s, p.batch(s, e).value))
  }

  ghost predicate ElementsOf(chain: int -> Header, n: int, elems: seq<Option<Header>>) {
    forall i :: 0 <= i < |elems| && elems[i].Some? ==> elems[i].value == chain(n + i)
  }

  /** Each header follows its predecessor, the first one the header before them all. */
  predicate Linked(from: Option<Header>, hs: seq<Header>) {
    && (forall i :: 0 < i < |hs| ==> hs[i].parentHash == hs[i - 1].hash)
    && (hs != [] && from.Some? ==> hs[0].parentHash == from.value.hash)
  }

  /** The headers are the chain's consecutive ones from height n on. */
  ghost predicate Consecutive(chain: int -> Header, n: int, hs: seq<Header>) {
    forall i :: 0 <= i < |hs| ==> hs[i] == chain(n + i)
  }

  function Last(from: Option<Header>, hs: seq<Header>): Option<Header> {
    if hs == [] then from else Some(hs[|hs| - 1])
  }

  function NextHeight(from: Option<Header>): int {
    if from.Some? then from.value.number + 1 else 0
  }

  lemma LinkedAppend(from: Option<Header>, a: seq<Header>, b: seq<Header>)
    requires Linked(from, a) && Linked(Last(from, a), b)
    ensures Linked(from, a + b) && Last(from, a + b) == Last(Last(from, a), b)
  {
    var hs := a + b;
    forall i | 0 < i < |hs|
      ensures hs[i].parentHash == hs[i - 1].hash
    {
      if i > |a| {
        assert hs[i] == b[i - |a|] && hs[i - 1] == b[i - |a| - 1];
      }
    }
  }

  /** An end such that the inclusive range has at most size elements. */
  function Clamp(start: int, end: int, size: nat): (r: int)
    requires start <= end && size >= 1
    ensures start <= r <= end && r - start + 1 <= size
    ensures r == end || r - start + 1 == size
  {
    if end - start + 1 <= size then end else start + (size - 1)
  }

  // ------------------------------------------------------------------ fetching a range

  datatype Parse = Bad | Stopped(headers: seq<Header>) | Going(headers: seq<Header>)

  /** The first n elements of a batch call: a failed element ends the list, unless it is the first; headers
      that do not build on top of each other spoil it. */
  function Parsed(elems: seq<Option<Header>>, n: nat): Parse
    requires n <= |elems|
  {
    if n == 0 then Going([])
    else
      match Parsed(elems, n - 1)
      case Going(hs) =>
        if elems[n - 1].None? then (if hs == [] then Bad else Stopped(hs))
        else if hs != [] && elems[n - 1].value.parentHash != hs[|hs| - 1].hash then Bad
        else Going(hs + [elems[n - 1].value])
      case other => other
  }

  function RangeOf(p: Provider, start: int, end: int): Option<seq<Header>>
    requires start <= end
  {
    if start == end then
      (if p.byNumber(start).None? then None else Some([p.byNumber(start).value]))
    else if p.batch(start, end).None? then None
    else
      var elems := p.batch(start, end).value;
      var r := Parsed(elems, |elems|);
      if r.Bad? then None else Some(r.headers)
  }

  /** The client's range query. */
  method BlockHeadersByRange(p: Provider, start: int, end: int) returns (r: Option<seq<Header>>)
    requires start <= end
    ensures r == RangeOf(p, start, end)
  {
    // a single header is not a batch
    if start == end {
      var header := p.byNumber(start);
      return if header.None? then None else Some([header.value]);
    }
    var elems := p.batch(start, end);
    if elems.None? {
      return None;
    }
    var headers: seq<Header> := [];
    for i := 0 to |elems.value|
      invariant Parsed(elems.value, i) == Going(headers) && |headers| == i
    {
      if elems.value[i].None? {
        EndsParse(elems.value, i + 1);
        // the elements before the failed one are linked
        return if i == 0 then None else Some(headers);
      }
      var header := elems.value[i].value;
      if i > 0 && header.parentHash != headers[i - 1].hash {
        EndsParse(elems.value, i + 1);
        return None;
      }
      headers := headers + [header];
    }
    r := Some(headers);
  }

  /** Once a batch is stopped or spoilt, the rest of it does not matter. */
  lemma {:induction false} EndsParse(elems: seq<Option<Header>>, n: nat)
    requires n <= |elems| && !Parsed(elems, n).Going?
    ensures Parsed(elems, |elems|) == Parsed(elems, n)
    decreases |elems| - n
  {
    if n < |elems| {
      EndsParse(elems, n + 1);
    }
  }

  lemma {:induction false} ParsedFacts(elems: seq<Option<Header>>, n: nat)
    requires n <= |elems|
    ensures var r := Parsed(elems, n);
            !r.Bad? ==>
              && Linked(None, r.headers) && |r.headers| <= n && (r.Going? ==> |r.headers| == n)
              && forall k :: 0 <= k < |r.headers| ==> elems[k] == Some(r.headers[k])
  {
    if n > 0 {
      ParsedFacts(elems, n - 1);
    }
  }

  lemma RangeFacts(p: Provider, start: int, end: int)
    requires start <= end && AnswersAll(p)
    ensures var r := RangeOf(p, start, end);
            r.Some? ==> Linked(None, r.value) && |r.value| <= end - start + 1
    ensures forall chain :: Honest(p, chain) && RangeOf(p, start, end).Some? ==> Consecutive(chain, start, RangeOf(p, start, end).value)
  {
    if p.batch(start, end).Some? {
      ParsedFacts(p.batch(start, end).value, |p.batch(start, end).value|);
    }
  }

  // ------------------------------------------------------------------ the traversal

  datatype Next = Headers(headers: seq<Header>) | Failed

  function NextOf(depth: nat, last: Option<Header>, p: Provider, maxSize: nat): Next
    requires maxSize >= 1
  {
    if p.latest.None? then Failed
    else
      var endHeight := p.latest.value.number - depth;
      if endHeight < 0 || (last.Some? && last.value.number == endHeight) then Headers([])
      else if last.Some? && last.value.number > endHeight then Failed
      else
        match RangeOf(p, NextHeight(last), Clamp(NextHeight(last), endHeight, maxSize))
        case None => Failed
        case Some(hs) => if hs != [] && last.Some? && hs[0].parentHash != last.value.hash then Failed else Headers(hs)
  }

  /** The next headers follow the last traversed one, are at most maxSize, and none is above the latest
      height less the confirmation depth; from a node that serves one chain they are its next ones. */
  lemma NextFacts(depth: nat, last: Option<Header>, p: Provider, maxSize: nat)
    requires AnswersAll(p) && maxSize >= 1
    ensures var r := NextOf(depth, last, p, maxSize);
            r.Headers? ==>
              && Linked(last, r.headers) && |r.headers| <= maxSize
              && (r.headers != [] ==> p.latest.Some? && NextHeight(last) + |r.headers| - 1 <= p.latest.value.number - depth)
    ensures forall chain :: Honest(p, chain) && NextOf(depth, last, p, maxSize).Headers? ==>
              Consecutive(chain, NextHeight(last), NextOf(depth, last, p, maxSize).headers)
  {
    if p.latest.Some? {
      var endHeight := p.latest.value.number - depth;
      if NextHeight(last) <= endHeight {
        RangeFacts(p, NextHeight(last), Clamp(NextHeight(last), endHeight, maxSize));
      }
    }
  }

  /** Where a node serves one chain that continues the traversed one, answers every query, and has a new
      confirmed header, the next headers are not empty: as many as fit up to the confirmed height. */
  lemma NextMakesProgress(depth: nat, last: Option<Header>, p: Provider, maxSize: nat, chain: int -> Header)
    requires AnswersAll(p) && Honest(p, chain) && maxSize >= 1
    requires forall n :: chain(n + 1).parentHash == chain(n).hash
    requires last.Some? ==> last.value == chain(last.value.number)
    requires p.latest.Some? && 0 <= NextHeight(last) <= p.latest.value.number - depth
    requires forall n :: p.byNumber(n).Some?
    requires forall s, e :: s <= e ==> p.batch(s, e).Some? && forall i :: 0 <= i < |p.batch(s, e).value| ==> p.batch(s, e).value[i].Some?
    ensures var r := NextOf(depth, last, p, maxSize);
            && r.Headers?
            && |r.headers| == Clamp(NextHeight(last), p.latest.value.number - depth, maxSize) - NextHeight(last) + 1
            && |r.headers| >= 1
  {
    hide RangeOf, AnswersAll, Honest, Consecutive, Linked;
    var start := NextHeight(last);
    var end := Clamp(start, p.latest.value.number - depth, maxSize);
    WholeRange(p, start, end, chain);
    var hs := RangeOf(p, start, end).value;
    assert last.Some? ==> chain(last.value.number + 1).parentHash == last.value.hash;
  }

  /** A range that is answered in full is returned in full. */
  lemma WholeRange(p: Provider, start: int, end: int, chain: int -> Header)
    requires start <= end && AnswersAll(p) && Honest(p, chain)
    requires forall n :: chain(n + 1).parentHash == chain(n).hash
    requires p.byNumber(start).Some?
    requires p.batch(start, end).Some? && forall i :: 0 <= i < |p.batch(start, end).value| ==> p.batch(start, end).value[i].Some?
    ensures var r := RangeOf(p, start, end);
            r.Some? && |r.value| == end - start + 1 && r.value[0] == chain(start)
  {
    hide Parsed;
    var elems := p.batch(start, end).value;
    ParsesAll(chain, start, elems, |elems|);
    ParsedFacts(elems, |elems|);
    if start < end {
      assert elems[0].value == chain(start + 0);
    }
  }

  lemma {:induction false} ParsesAll(chain: int -> Header, start: int, elems: seq<Option<Header>>, n: nat)
    requires n <= |elems| && ElementsOf(chain, start, elems) && forall i :: 0 <= i < |elems| ==> elems[i].Some?
    requires forall k :: chain(k + 1).parentHash == chain(k).hash
    ensures Parsed(elems, n).Going?
  {
    if n > 0 {
      ParsesAll(chain, start, elems, n - 1);
      ParsedFacts(elems, n - 1);
      if n > 1 {
        assert chain((start + (n - 2)) + 1).parentHash == chain(start + (n - 2)).hash;
      }
    }
  }

  class HeaderTraversal {
    const blockConfirmationDepth: nat
    var latestHeader: Option<Header>
    var lastTraversedHeader: Option<Header>

    constructor (fromHeader: Option<Header>, confDepth: nat)
      ensures lastTraversedHeader == fromHeader && latestHeader == None && blockConfirmationDepth == confDepth
    {
      blockConfirmationDepth := confDepth;
      latestHeader, lastTraversedHeader := None, fromHeader;
    }

    /** The next set of headers with enough confirmations, bounded by the supplied size. On a failure, or
        with nothing new, the traversal stays where it is. */
    method NextHeaders(p: Provider, maxSize: nat) returns (r: Next)
      requires maxSize >= 1
      modifies this
      ensures r == NextOf(blockConfirmationDepth, old(lastTraversedHeader), p, maxSize)
      ensures latestHeader == if p.latest.Some? then p.latest else old(latestHeader)
      ensures lastTraversedHeader == if r.Headers? then Last(old(lastTraversedHeader), r.headers) else old(lastTraversedHeader)
    {
      if p.latest.None? {
        return Failed;
      }
      latestHeader := p.latest;
      var endHeight := p.latest.value.number - blockConfirmationDepth;
      if endHeight < 0 {
        return Headers([]); // nothing is deep enough yet
      }
      if lastTraversedHeader.Some? {
        if lastTraversedHeader.value.number == endHeight {
          return Headers([]); // synced to head, no new headers
        } else if lastTraversedHeader.value.number > endHeight {
          return Failed; // the node went back
        }
      }
      var nextHeight := 0;
      if lastTraversedHeader.Some? {
        nextHeight := lastTraversedHeader.value.number + 1;
      }
      endHeight := Clamp(nextHeight, endHeight, maxSize);
      var headers := BlockHeadersByRange(p, nextHeight, endHeight);
      if headers.None? {
        return Failed;
      }
      var numHeaders := |headers.value|;
      if numHeaders == 0 {
        return Headers([]);
      } else if lastTraversedHeader.Some? && headers.value[0].parentHash != lastTraversedHeader.value.hash {
        return Failed; // diverged from the provider
      }
      lastTraversedHeader := Some(headers.value[numHeaders - 1]);
      r := Headers(headers.value);
    }
  }

  // ------------------------------------------------------------------ the ETL loop

  datatype Log = Log(blockHash: nat, index: nat)
  datatype Logs = Logs(toBlockHeader: Header, logs: seq<Log>)

  datatype ETLBatch = ETLBatch(headers: seq<Header>, headerMap: map<nat, Header>, logs: seq<Log>, headersWithLog: set<nat>)

  /** One interval: what the provider answers, and what the log query for a batch does. */
  datatype Tick = Tick(provider: Provider, filterLogs: seq<Header> -> Option<Logs>)

  function HeaderMap(headers: seq<Header>): map<nat, Header> {
    if headers == [] then map[]
    else HeaderMap(headers[..|headers| - 1])[headers[|headers| - 1].hash := headers[|headers| - 1]]
  }

  function BlocksWithLog(logs: seq<Log>): set<nat> {
    set i | 0 <= i < |logs| :: logs[i].blockHash
  }

  /** The batch of non-empty headers, if its logs were fetched up to its last header and are all its own. */
  function BatchOf(headers: seq<Header>, logs: Option<Logs>): Option<ETLBatch>
    requires headers != []
  {
    var last := headers[|headers| - 1];
    if logs.None? || logs.value.toBlockHeader.number != last.number || logs.value.toBlockHeader.hash != last.hash then None
    else if exists i :: 0 <= i < |logs.value.logs| && logs.value.logs[i].blockHash !in HeaderMap(headers) then None
    else Some(ETLBatch(headers, HeaderMap(headers), logs.value.logs, BlocksWithLog(logs.value.logs)))
  }

  lemma {:induction false} HeaderMapFacts(headers: seq<Header>)
    ensures forall h :: h in HeaderMap(headers) <==> exists i :: 0 <= i < |headers| && headers[i].hash == h
    ensures forall h :: h in HeaderMap(headers) ==> HeaderMap(headers)[h] in headers && HeaderMap(headers)[h].hash == h
  {
    if headers != [] {
      var n := |headers| - 1;
      HeaderMapFacts(headers[..n]);
      assert headers == headers[..n] + [headers[n]];
      forall h | exists i :: 0 <= i < |headers| && headers[i].hash == h
        ensures h in HeaderMap(headers)
      {
        var i :| 0 <= i < |headers| && headers[i].hash == h;
        assert i < n ==> headers[..n][i].hash == h;
      }
    }
  }

  datatype State = State(last: Option<Header>, headers: seq<Header>, batches: seq<ETLBatch>)

  /** The next headers, unless some are left over. */
  function Fetch(s: State, depth: nat, maxSize: nat, t: Tick): State
    requires maxSize >= 1
  {
    var next := NextOf(depth, s.last, t.provider, maxSize);
    if s.headers == [] && next.Headers? then State(Last(s.last, next.headers), next.headers, s.batches) else s
  }

  /** The waiting headers as one batch, if it can be processed. */
  function Send(s: State, t: Tick): State {
    if s.headers == [] then s
    else
      match BatchOf(s.headers, t.filterLogs(s.headers))
      case None => s
      case Some(b) => State(s.last, [], s.batches + [b])
  }

  /** One interval: retry the headers left over, or fetch the next ones, and try to send them on. */
  function Interval(s: State, depth: nat, maxSize: nat, t: Tick): State
    requires maxSize >= 1
  {
    Send(Fetch(s, depth, maxSize, t), t)
  }

  function Intervals(s: State, depth: nat, maxSize: nat, ticks: seq<Tick>): State
    requires maxSize >= 1
  {
    if ticks == [] then s else Interval(Intervals(s, depth, maxSize, ticks[..|ticks| - 1]), depth, maxSize, ticks[|ticks| - 1])
  }

  function Emitted(batches: seq<ETLBatch>): seq<Header> {
    if batches == [] then [] else Emitted(batches[..|batches| - 1]) + batches[|batches| - 1].headers
  }

  /** What holds between intervals of a run from the given header: everything traversed is either sent on
      or waiting to be retried, in order, and forms one parent-linked chain in bounded batches. */
  ghost predicate InOrder(from: Option<Header>, maxSize: nat, s: State) {
    var all := Traversed(s);
    && Linked(from, all) && s.last == Last(from, all) && |s.headers| <= maxSize
    && forall b :: b in s.batches ==> 0 < |b.headers| <= maxSize
  }

  function Traversed(s: State): seq<Header> {
    Emitted(s.batches) + s.headers
  }

  /** Sending moves headers along and changes nothing about what was traversed. */
  lemma SendFacts(s: State, t: Tick)
    ensures var s' := Send(s, t);
            && Traversed(s') == Traversed(s) && s'.last == s.last
            && (s'.headers == s.headers || s'.headers == [])
            && (s'.batches == s.batches || (s.headers != [] && exists b :: s'.batches == s.batches + [b] && b.headers == s.headers))
  {
    if s.headers != [] {
      var b := BatchOf(s.headers, t.filterLogs(s.headers));
      if b.Some? {
        EmitOne(s.batches, b.value);
      }
    }
  }

  /** Fetching appends the new headers to what was traversed. */
  lemma FetchFacts(s: State, depth: nat, maxSize: nat, t: Tick)
    requires maxSize >= 1
    ensures var s' := Fetch(s, depth, maxSize, t);
            var next := NextOf(depth, s.last, t.provider, maxSize);
            if s.headers == [] && next.Headers?
            then Traversed(s') == Traversed(s) + next.headers && s'.last == Last(s.last, next.headers) && s'.headers == next.headers && s'.batches == s.batches
            else s' == s
  {
    assert s.headers == [] ==> Traversed(s) == Emitted(s.batches);
  }

  lemma IntervalKeepsOrder(from: Option<Header>, s: State, depth: nat, maxSize: nat, t: Tick)
    requires AnswersAll(t.provider) && maxSize >= 1 && InOrder(from, maxSize, s)
    ensures InOrder(from, maxSize, Interval(s, depth, maxSize, t))
    ensures Traversed(s) <= Traversed(Interval(s, depth, maxSize, t))
  {
    hide Emitted, BatchOf, NextOf, Fetch, Send;
    NextFacts(depth, s.last, t.provider, maxSize);
    FetchFacts(s, depth, maxSize, t);
    var next := NextOf(depth, s.last, t.provider, maxSize);
    if s.headers == [] && next.Headers? {
      LinkedAppend(from, Traversed(s), next.headers);
    }
    SendFacts(Fetch(s, depth, maxSize, t), t);
  }

  lemma EmitOne(batches: seq<ETLBatch>, b: ETLBatch)
    ensures Emitted(batches + [b]) + [] == Emitted(batches) + b.headers
  {
    assert (batches + [b])[..|batches|] == batches;
  }

  /** Over any run, whatever fails in between: the batches sent and the headers left over form one
      parent-linked chain from the starting header, each batch of at most maxSize. */
  lemma {:induction false} RunInOrder(from: Option<Header>, depth: nat, maxSize: nat, ticks: seq<Tick>)
    requires maxSize >= 1 && forall t :: t in ticks ==> AnswersAll(t.provider)
    ensures InOrder(from, maxSize, Intervals(State(from, [], []), depth, maxSize, ticks))
    decreases |ticks|
  {
    if ticks == [] {
      assert Emitted([]) + [] == [];
    } else {
      var n := |ticks| - 1;
      RunInOrder(from, depth, maxSize, ticks[..n]);
      IntervalKeepsOrder(from, Intervals(State(from, [], []), depth, maxSize, ticks[..n]), depth, maxSize, ticks[n]);
    }
  }

  /** If the providers serve one chain, they are exactly its headers from the next height on, each once and
      in order. */
  lemma {:induction false} RunGapFree(chain: int -> Header, from: Option<Header>, depth: nat, maxSize: nat, ticks: seq<Tick>)
    requires maxSize >= 1 && forall t :: t in ticks ==> AnswersAll(t.provider) && Honest(t.provider, chain)
    requires from.Some? ==> from.value == chain(from.value.number)
    ensures var s := Intervals(State(from, [], []), depth, maxSize, ticks);
            Consecutive(chain, NextHeight(from), Traversed(s))
    decreases |ticks|
  {
    if ticks != [] {
      var n := |ticks| - 1;
      RunGapFree(chain, from, depth, maxSize, ticks[..n]);
      RunInOrder(from, depth, maxSize, ticks[..n]);
      var s := Intervals(State(from, [], []), depth, maxSize, ticks[..n]);
      IntervalGapFree(chain, from, s, depth, maxSize, ticks[n]);
    }
  }

  /** At some interval the header was at or below the latest height less the confirmation depth. */
  ghost predicate Confirmed(ticks: seq<Tick>, depth: nat, h: Header) {
    exists t :: t in ticks && t.provider.latest.Some? && h.number <= t.provider.latest.value.number - depth
  }

  /** No header is traversed, and so none is sent on, before it is deep enough. */
  lemma {:induction false} RunConfirmed(chain: int -> Header, from: Option<Header>, depth: nat, maxSize: nat, ticks: seq<Tick>)
    requires maxSize >= 1 && forall t :: t in ticks ==> AnswersAll(t.provider) && Honest(t.provider, chain)
    requires from.Some? ==> from.value == chain(from.value.number)
    ensures var s := Intervals(State(from, [], []), depth, maxSize, ticks);
            && (forall h :: h in Traversed(s) ==> Confirmed(ticks, depth, h))
            && (forall b, h :: b in s.batches && h in b.headers ==> Confirmed(ticks, depth, h))
    decreases |ticks|
  {
    hide Confirmed, AnswersAll, Honest, Interval, Traversed;
    var s := Intervals(State(from, [], []), depth, maxSize, ticks);
    if ticks == [] {
      NothingTraversed(from);
    } else {
      var n := |ticks| - 1;
      RunConfirmed(chain, from, depth, maxSize, ticks[..n]);
      var before := Intervals(State(from, [], []), depth, maxSize, ticks[..n]);
      forall h | h in Traversed(s)
        ensures Confirmed(ticks, depth, h)
      {
        if h in Traversed(before) {
          MoreTicks(ticks, n, depth, h);
        } else {
          IntervalConfirmed(chain, before, depth, maxSize, ticks[n], h);
          OwnTick(ticks, ticks[n], depth, h);
        }
      }
    }
    forall b, h | b in s.batches && h in b.headers
      ensures Confirmed(ticks, depth, h)
    {
      InTraversed(s, b, h);
    }
  }

  lemma NothingTraversed(from: Option<Header>)
    ensures Traversed(State(from, [], [])) == []
  {
  }

  lemma MoreTicks(ticks: seq<Tick>, n: nat, depth: nat, h: Header)
    requires n <= |ticks| && Confirmed(ticks[..n], depth, h)
    ensures Confirmed(ticks, depth, h)
  {
  }

  lemma OwnTick(ticks: seq<Tick>, t: Tick, depth: nat, h: Header)
    requires t in ticks && t.provider.latest.Some? && h.number <= t.provider.latest.value.number - depth
    ensures Confirmed(ticks, depth, h)
  {
  }

  /** A header that an interval adds is deep enough for that interval. */
  lemma IntervalConfirmed(chain: int -> Header, s: State, depth: nat, maxSize: nat, t: Tick, h: Header)
    requires AnswersAll(t.provider) && Honest(t.provider, chain) && maxSize >= 1
    requires h in Traversed(Interval(s, depth, maxSize, t)) && h !in Traversed(s)
    ensures t.provider.latest.Some? && h.number <= t.provider.latest.value.number - depth
  {
    hide Emitted, BatchOf, NextOf, Fetch, Send, Traversed;
    NextFacts(depth, s.last, t.provider, maxSize);
    FetchFacts(s, depth, maxSize, t);
    SendFacts(Fetch(s, depth, maxSize, t), t);
    var next := NextOf(depth, s.last, t.provider, maxSize).headers;
    var i :| 0 <= i < |next| && next[i] == h;
    assert h == chain(NextHeight(s.last) + i);
  }

  lemma InTraversed(s: State, b: ETLBatch, h: Header)
    requires b in s.batches && h in b.headers
    ensures h in Traversed(s)
  {
    InEmitted(s.batches, b, h);
  }

  lemma {:induction false} InEmitted(batches: seq<ETLBatch>, b: ETLBatch, h: Header)
    requires b in batches && h in b.headers
    ensures h in Emitted(batches)
    decreases |batches|
  {
    var n := |batches| - 1;
    if batches[n] != b {
      assert batches == batches[..n] + [batches[n]];
      InEmitted(batches[..n], b, h);
    }
  }

  lemma IntervalGapFree(chain: int -> Header, from: Option<Header>, s: State, depth: nat, maxSize: nat, t: Tick)
    requires AnswersAll(t.provider) && Honest(t.provider, chain) && maxSize >= 1 && InOrder(from, maxSize, s)
    requires Consecutive(chain, NextHeight(from), Traversed(s))
    ensures var s' := Interval(s, depth, maxSize, t);
            Consecutive(chain, NextHeight(from), Traversed(s'))
  {
    hide Emitted, BatchOf, NextOf, Fetch, Send;
    NextFacts(depth, s.last, t.provider, maxSize);
    FetchFacts(s, depth, maxSize, t);
    SendFacts(Fetch(s, depth, maxSize, t), t);
    var next := NextOf(depth, s.last, t.provider, maxSize);
    if s.headers == [] && next.Headers? {
      HeightAfter(chain, from, Traversed(s));
      ConsecutiveAppend(chain, NextHeight(from), Traversed(s), next.headers);
    }
  }

  /** After consecutive headers, the next height is as many further on. */
  lemma HeightAfter(chain: int -> Header, from: Option<Header>, hs: seq<Header>)
    requires forall n :: chain(n).number == n
    requires Consecutive(chain, NextHeight(from), hs)
    ensures NextHeight(Last(from, hs)) == NextHeight(from) + |hs|
  {
    if hs != [] {
      assert hs[|hs| - 1] == chain(NextHeight(from) + (|hs| - 1));
    }
  }

  lemma ConsecutiveAppend(chain: int -> Header, n: int, a: seq<Header>, b: seq<Header>)
    requires Consecutive(chain, n, a) && Consecutive(chain, n + |a|, b)
    ensures Consecutive(chain, n, a + b)
  {
    forall i | 0 <= i < |a + b|
      ensures (a + b)[i] == chain(n + i)
    {
      if i >= |a| {
        assert b[i - |a|] == chain(n + |a| + (i - |a|));
      }
    }
  }

  class ETL {
    const headerBufferSize: nat
    const headerTraversal: HeaderTraversal
    // the channel to the indexer
    var etlBatches: seq<ETLBatch>

    constructor (headerBufferSize: nat, headerTraversal: HeaderTraversal)
      ensures this.headerBufferSize == headerBufferSize && this.headerTraversal == headerTraversal && etlBatches == []
    {
      this.headerBufferSize, this.headerTraversal := headerBufferSize, headerTraversal;
      etlBatches := [];
    }

    /** Sends the batch on if its logs could be fetched and are consistent with it. */
    method ProcessBatch(headers: seq<Header>, filterLogs: seq<Header> -> Option<Logs>) returns (ok: bool)
      modifies this
      ensures headers == [] ==> ok && etlBatches == old(etlBatches)
      ensures headers != [] ==>
        var b := BatchOf(headers, filterLogs(headers));
        ok == b.Some? && etlBatches == old(etlBatches) + if b.Some? then [b.value] else []
    {
      if headers == [] {
        return true;
      }
      var lastHeader := headers[|headers| - 1];
      var headerMap: map<nat, Header> := map[];
      for i := 0 to |headers|
        invariant headerMap == HeaderMap(headers[..i])
      {
        assert headers[..i + 1][..i] == headers[..i];
        headerMap := headerMap[headers[i].hash := headers[i]];
      }
      assert headers[..|headers|] == headers;
      var logs := filterLogs(headers);
      if logs.None? {
        return false;
      }
      if logs.value.toBlockHeader.number != lastHeader.number || logs.value.toBlockHeader.hash != lastHeader.hash {
        return false; // the logs are of another chain state
      }
      var headersWithLog: set<nat> := {};
      for i := 0 to |logs.value.logs|
        invariant forall k :: 0 <= k < i ==> logs.value.logs[k].blockHash in headerMap
        invariant headersWithLog == BlocksWithLog(logs.value.logs[..i])
      {
        var log := logs.value.logs[i];
        headersWithLog := headersWithLog + {log.blockHash};
        if log.blockHash !in headerMap {
          return false; // a log of a block that is not in the batch
        }
        assert forall k :: 0 <= k < i ==> logs.value.logs[..i + 1][k] == logs.value.logs[..i][k];
        assert logs.value.logs[..i + 1][i] == log;
      }
      assert logs.value.logs[..|logs.value.logs|] == logs.value.logs;
      etlBatches := etlBatches + [ETLBatch(headers, headerMap, logs.value.logs, headersWithLog)];
      ok := true;
    }

    /** The loop over the intervals until the service stops. The headers of a batch that failed to process
        stay for the next interval. */
    method Start(ticks: seq<Tick>) returns (headers: seq<Header>)
      requires headerBufferSize >= 1
      modifies this, headerTraversal
      ensures State(headerTraversal.lastTraversedHeader, headers, etlBatches)
              == Intervals(State(old(headerTraversal.lastTraversedHeader), [], old(etlBatches)), headerTraversal.blockConfirmationDepth, headerBufferSize, ticks)
    {
      ghost var s0 := State(headerTraversal.lastTraversedHeader, [], etlBatches);
      headers := [];
      for i := 0 to |ticks|
        invariant State(headerTraversal.lastTraversedHeader, headers, etlBatches)
               == Intervals(s0, headerTraversal.blockConfirmationDepth, headerBufferSize, ticks[..i])
      {
        assert ticks[..i + 1][..i] == ticks[..i];
        if |headers| == 0 {
          var newHeaders := headerTraversal.NextHeaders(ticks[i].provider, headerBufferSize);
          if newHeaders.Headers? && |newHeaders.headers| > 0 {
            headers := newHeaders.headers;
          }
        }
        // otherwise the next interval retries the same headers
        var ok := ProcessBatch(headers, ticks[i].filterLogs);
        if ok {
          headers := [];
        }
      }
      assert ticks[..|ticks|] == ticks;
    }
  }
}
