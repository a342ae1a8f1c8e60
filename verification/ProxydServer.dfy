/** The server half of proxyd's batch pipeline: handleBatchRPC with its groups, cache and mini-batches. */
module ProxydServer {
  import opened Words
  import opened Proxyd

  const JSONRPC_VERSION := "2.0"

  /** A raw element of the batch: whether it parses, and what it parses to. */
  datatype Raw = Raw(parses: bool, version: string, req: Req)

  predicate IsValidID(id: string) {
    if id != "" && id[0] == '"' && id[|id| - 1] == '"' then |id| > 2
    else |id| > 0 && id[0] != '{' && id[0] != '['
  }

  /** ParseRPCReq and ValidateRPCReq succeed. */
  predicate Valid(raw: Raw) {
    raw.parses && raw.version == JSONRPC_VERSION && raw.req.name != "" && IsValidID(raw.req.id)
  }

  const ERR_PARSE := -32700
  const ERR_INVALID := -32600
  const ERR_WHITELIST := -32601
  const ERR_RATE_LIMIT := -32016
  const ERR_FORWARD := -32011

  /** The payload standing for the empty array. */
  const EMPTY_ARRAY: nat := 0

  /** Requests with the same id go to different groups. */
  datatype BatchGroup = BatchGroup(groupID: nat, backendGroup: string)

  datatype BatchElem = BatchElem(req: Req, index: nat)

  type Batches = map<BatchGroup, seq<BatchElem>>

  function Requests(elems: seq<BatchElem>): (reqs: seq<Req>)
    ensures |reqs| == |elems| && forall i :: 0 <= i < |elems| ==> reqs[i] == elems[i].req
  {
    seq(|elems|, i requires 0 <= i < |elems| => elems[i].req)
  }

  /** A mini-batch that was forwarded to a group. */
  datatype Sending = Sending(group: string, elems: seq<BatchElem>)

  ghost predicate Filled(batch: seq<BatchElem>, responses: seq<Option<Res>>) {
    forall e :: e in batch ==> e.index < |responses| && responses[e.index].Some?
  }

  /** Slots once filled stay filled. */
  ghost predicate MoreFilled(before: seq<Option<Res>>, after: seq<Option<Res>>) {
    |before| == |after| && forall i :: 0 <= i < |before| && before[i].Some? ==> after[i].Some?
  }

  datatype Outcome = Responses(res: seq<Res>) | Aborted

  class Server {
    const rpcMethodMappings: map<string, string>
    const overrideLims: set<string>
    const maxUpstreamBatchSize: nat
    const groups: map<string, Group>
    // which requests have a cache handler, and which of their answers it stores
    const cacheable: Req -> bool
    const storable: (Req, nat) -> bool
    // by method and parameters
    var cache: map<(string, nat), nat>

    constructor (rpcMethodMappings: map<string, string>, overrideLims: set<string>, maxUpstreamBatchSize: nat,
                 groups: map<string, Group>, cacheable: Req -> bool, storable: (Req, nat) -> bool)
      ensures this.rpcMethodMappings == rpcMethodMappings && this.groups == groups
      ensures this.maxUpstreamBatchSize == maxUpstreamBatchSize && cache == map[]
    {
      this.rpcMethodMappings, this.overrideLims, this.maxUpstreamBatchSize := rpcMethodMappings, overrideLims, maxUpstreamBatchSize;
      this.groups, this.cacheable, this.storable := groups, cacheable, storable;
      cache := map[];
    }

    /** Methods map to configured groups of conforming backends; the cache holds good answers. */
    ghost predicate Ok(good: Answers)
      reads this
    {
      && maxUpstreamBatchSize > 0
      && (forall m :: m in rpcMethodMappings && rpcMethodMappings[m] != "" ==> rpcMethodMappings[m] in groups)
      && (forall g :: g in groups ==> GroupConforming(groups[g], good))
      && (forall k :: k in cache ==> good(k.0, k.1, Value(cache[k])))
    }

    /** Slot i is right: the answer given without a backend, if there is one; else an answer to the request,
        under its own id, or the forwarding error if the mini-batch that carried the request failed. */
    ghost predicate Right(good: Answers, raw: Raw, i: nat, limited: bool, res: Res, sent: seq<Sending>) {
      var direct := Direct(raw, limited);
      if direct.Some? then res == direct.value
      else
        || Answer(good, raw.req, res)
        || (res == Res(Some(raw.req.id), Error(ERR_FORWARD)) && exists s :: s in sent && CarriedAndFailed(s, raw, i))
    }

    /** What forwarding the mini-batch came to. */
    ghost function OutcomeOf(s: Sending): Option<Failure>
      requires s.group in groups
    {
      Outcomes(groups[s.group], Kept(groups[s.group], Requests(s.elems)), 0)
    }

    /** The mini-batch carried this request to the group its method maps to, and failed there. */
    ghost predicate CarriedAndFailed(s: Sending, raw: Raw, i: nat) {
      && raw.req.name in rpcMethodMappings && s.group == rpcMethodMappings[raw.req.name] && BatchElem(raw.req, i) in s.elems
      && s.group in groups && OutcomeOf(s).Some?
    }

    /** The failures that abort the whole batch. */
    ghost predicate Aborts(s: Sending) {
      s.group in groups && (OutcomeOf(s) == Some(CantBeBatched) || OutcomeOf(s) == Some(InvalidTarget))
    }

    /** Every mini-batch is within the size limit and carries requests of its group, no two with the same id. */
    ghost predicate SentOk(raws: seq<Raw>, limited: nat -> bool, sent: seq<Sending>) {
      forall s :: s in sent ==> s.group in groups && BatchOk(raws, limited, s.group, s.elems) && |s.elems| <= maxUpstreamBatchSize
    }

    ghost predicate NoneAborts(sent: seq<Sending>) {
      forall s :: s in sent ==> !Aborts(s)
    }

    lemma RightStays(good: Answers, raw: Raw, i: nat, limited: bool, res: Res, sent: seq<Sending>, s: Sending)
      requires Right(good, raw, i, limited, res, sent)
      ensures Right(good, raw, i, limited, res, sent + [s])
    {
    }

    lemma SlotsStay(good: Answers, raws: seq<Raw>, limited: nat -> bool, responses: seq<Option<Res>>, sent: seq<Sending>, s: Sending)
      requires SlotsRight(good, raws, limited, responses, sent)
      ensures SlotsRight(good, raws, limited, responses, sent + [s])
    {
      hide Right;
      forall i | 0 <= i < |raws| && responses[i].Some?
        ensures Right(good, raws[i], i, limited(i), responses[i].value, sent + [s])
      {
        RightStays(good, raws[i], i, limited(i), responses[i].value, sent, s);
      }
    }

    /** A right slot carries its request's id, and none exactly if the request does not parse or validate. */
    lemma RightId(good: Answers, raw: Raw, i: nat, limited: bool, res: Res, sent: seq<Sending>)
      requires Right(good, raw, i, limited, res, sent)
      ensures res.id == if Valid(raw) then Some(raw.req.id) else None
      ensures !Valid(raw) ==> res.body.Error?
    {
    }

    /** Every filled slot is right. */
    ghost predicate SlotsRight(good: Answers, raws: seq<Raw>, limited: nat -> bool, responses: seq<Option<Res>>, sent: seq<Sending>) {
      && |responses| == |raws|
      && forall i :: 0 <= i < |raws| && responses[i].Some? ==> Right(good, raws[i], i, limited(i), responses[i].value, sent)
    }

    /** Each element is a request for this backend group under its own index; no two have the same id. */
    ghost predicate BatchOk(raws: seq<Raw>, limited: nat -> bool, group: string, batch: seq<BatchElem>) {
      DistinctIds(Requests(batch)) && forall e :: e in batch ==> ElemOk(raws, limited, group, e)
    }

    ghost predicate ElemOk(raws: seq<Raw>, limited: nat -> bool, group: string, e: BatchElem) {
      e.index < |raws| && raws[e.index].req == e.req && Direct(raws[e.index], limited(e.index)).None?
      && rpcMethodMappings[e.req.name] == group
    }

    /** The first loop: answer what needs no backend, and sort the rest into groups. limited says which
        requests the rate limiters reject. */
    method SplitBatch(raws: seq<Raw>, limited: nat -> bool, ghost good: Answers)
      returns (responses: seq<Option<Res>>, batches: Batches)
      requires Ok(good)
      ensures SlotsRight(good, raws, limited, responses, [])
      ensures forall key :: key in batches ==> key.backendGroup in groups && BatchOk(raws, limited, key.backendGroup, batches[key])
      ensures forall i :: 0 <= i < |raws| ==>
        responses[i].Some? || exists key :: key in batches && BatchElem(raws[i].req, i) in batches[key]
    {
      hide Direct, BatchOk;
      responses := seq(|raws|, _ => None);
      batches := map[];
      var ids: map<string, nat> := map[];
      ghost var place: map<nat, BatchGroup> := map[];
      for i := 0 to |raws|
        invariant SlotsRight(good, raws, limited, responses, [])
        invariant BatchesOk(raws, limited, batches) && IdsCounted(batches, ids)
        invariant forall j :: 0 <= j < i ==>
          responses[j].Some? || (j in place && place[j] in batches && BatchElem(raws[j].req, j) in batches[place[j]])
      {
        var raw := raws[i];
        var direct := Direct(raw, limited(i));
        if direct.Some? {
          responses := responses[i := direct];
        } else {
          MappedToGroup(good, raw, limited(i));
          var id := raw.req.id;
          // a repeated id starts a new group, so that no mini-batch has an id twice
          var count := (if id in ids then ids[id] else 0) + 1;
          var key := BatchGroup(count, rpcMethodMappings[raw.req.name]);
          var batch := if key in batches then batches[key] else [];
          AddToGroup(raws, limited, batches, ids, key, i);
          ids := ids[id := count];
          batches := batches[key := batch + [BatchElem(raw.req, i)]];
          place := place[i := key];
        }
      }
    }

    ghost predicate BatchesOk(raws: seq<Raw>, limited: nat -> bool, batches: Batches) {
      forall key :: key in batches ==> key.backendGroup in groups && BatchOk(raws, limited, key.backendGroup, batches[key])
    }

    /** An id is in groups up to its count only. */
    ghost predicate IdsCounted(batches: Batches, ids: map<string, nat>) {
      forall key, e :: key in batches && e in batches[key] ==> e.req.id in ids && key.groupID <= ids[e.req.id]
    }

    lemma MappedToGroup(good: Answers, raw: Raw, limited: bool)
      requires Ok(good) && Direct(raw, limited).None?
      ensures raw.req.name in rpcMethodMappings && rpcMethodMappings[raw.req.name] in groups
    {
    }

    lemma AddToGroup(raws: seq<Raw>, limited: nat -> bool, batches: Batches, ids: map<string, nat>, key: BatchGroup, i: nat)
      requires BatchesOk(raws, limited, batches) && IdsCounted(batches, ids) && i < |raws| && Direct(raws[i], limited(i)).None?
      requires raws[i].req.name in rpcMethodMappings && rpcMethodMappings[raws[i].req.name] == key.backendGroup && key.backendGroup in groups
      requires key.groupID == (if raws[i].req.id in ids then ids[raws[i].req.id] else 0) + 1
      ensures var batch := (if key in batches then batches[key] else []) + [BatchElem(raws[i].req, i)];
              && BatchesOk(raws, limited, batches[key := batch])
              && IdsCounted(batches[key := batch], ids[raws[i].req.id := key.groupID])
    {
      hide Direct, BatchOk;
      var batch := if key in batches then batches[key] else [];
      EmptyBatchOk(raws, limited, key.backendGroup);
      AddElem(raws, limited, key.backendGroup, batch, BatchElem(raws[i].req, i));
    }

    lemma EmptyBatchOk(raws: seq<Raw>, limited: nat -> bool, group: string)
      ensures BatchOk(raws, limited, group, [])
    {
    }

    /** The answer given without a backend, if any. */
    function Direct(raw: Raw, limited: bool): (r: Option<Res>)
      ensures r.None? ==> Valid(raw) && raw.req.name != "eth_accounts" && raw.req.name in rpcMethodMappings && rpcMethodMappings[raw.req.name] != ""
    {
      if !raw.parses then Some(Res(None, Error(ERR_PARSE)))
      else if !Valid(raw) then Some(Res(None, Error(ERR_INVALID)))
      else if raw.req.name == "eth_accounts" then Some(Res(Some(raw.req.id), Value(EMPTY_ARRAY)))
      else if raw.req.name !in rpcMethodMappings || rpcMethodMappings[raw.req.name] == "" then
        Some(Res(Some(raw.req.id), Error(ERR_WHITELIST)))
      else if limited && (raw.req.name in overrideLims || raw.req.name == "eth_sendRawTransaction") then
        Some(Res(Some(raw.req.id), Error(ERR_RATE_LIMIT)))
      else None
    }

    lemma AddElem(raws: seq<Raw>, limited: nat -> bool, group: string, batch: seq<BatchElem>, e: BatchElem)
      requires BatchOk(raws, limited, group, batch) && ElemOk(raws, limited, group, e)
      requires forall f :: f in batch ==> f.req.id != e.req.id
      ensures BatchOk(raws, limited, group, batch + [e])
    {
      var reqs := Requests(batch + [e]);
      assert reqs == Requests(batch) + [e.req];
      assert forall i :: 0 <= i < |batch| ==> batch[i] in batch;
    }

    /** Answers from the cache; the elements it does not have are left over, in order. */
    method FromCache(raws: seq<Raw>, limited: nat -> bool, ghost group: string, batch: seq<BatchElem>, before: seq<Option<Res>>,
                     ghost sent: seq<Sending>, ghost good: Answers)
      returns (responses: seq<Option<Res>>, misses: seq<BatchElem>)
      requires Ok(good) && SlotsRight(good, raws, limited, before, sent) && BatchOk(raws, limited, group, batch)
      ensures SlotsRight(good, raws, limited, responses, sent) && MoreFilled(before, responses)
      ensures BatchOk(raws, limited, group, misses)
      ensures forall e :: e in batch ==> e.index < |raws| && (responses[e.index].Some? || e in misses)
    {
      responses, misses := before, [];
      for i := 0 to |batch|
        invariant SlotsRight(good, raws, limited, responses, sent) && MoreFilled(before, responses)
        invariant BatchOk(raws, limited, group, misses) && forall f :: f in misses ==> f in batch[..i]
        invariant forall k :: 0 <= k < i ==> batch[k].index < |raws| && (responses[batch[k].index].Some? || batch[k] in misses)
      {
        var e := batch[i];
        assert e in batch && ElemOk(raws, limited, group, e);
        var hit := GetRPC(e.req);
        if hit.Some? {
          responses := responses[e.index := hit];
        } else {
          forall f | f in misses
            ensures f.req.id != e.req.id
          {
            var k :| 0 <= k < i && batch[k] == f;
            assert Requests(batch)[k].id != Requests(batch)[i].id;
          }
          AddElem(raws, limited, group, misses, e);
          misses := misses + [e];
        }
      }
    }

    /** The cached payload under the request's own id. */
    function GetRPC(req: Req): Option<Res>
      reads this
    {
      if cacheable(req) && (req.name, req.params) in cache
      then Some(Res(Some(req.id), Value(cache[(req.name, req.params)]))) else None
    }

    /** PutRPC for a successful answer to the request as it was sent. */
    method PutRPC(req: Req, res: Res, ghost good: Answers)
      requires Ok(good) && Answer(good, req, res)
      modifies this`cache
      ensures Ok(good)
    {
      if res.body.Value? && cacheable(req) && storable(req, res.body.payload) {
        cache := cache[(req.name, req.params) := res.body.payload];
      }
    }

    /** One mini-batch: forward it, or answer each element with the error, and fill the slots. */
    method ServeElems(raws: seq<Raw>, limited: nat -> bool, group: string, elems: seq<BatchElem>, before: seq<Option<Res>>,
                      ghost sent: seq<Sending>, ghost good: Answers)
      returns (responses: seq<Option<Res>>, aborted: bool)
      requires Ok(good) && group in groups && SlotsRight(good, raws, limited, before, sent) && BatchOk(raws, limited, group, elems)
      modifies this`cache
      ensures Ok(good)
      ensures aborted <==> Aborts(Sending(group, elems))
      ensures !aborted ==>
        SlotsRight(good, raws, limited, responses, sent + [Sending(group, elems)]) && MoreFilled(before, responses) && Filled(elems, responses)
    {
      hide Outcomes, Kept, SentAll, Sent, GroupConforming, Right, SlotsRight, Filled, MoreFilled, Aligned;
      ghost var s := Sending(group, elems);
      var g := groups[group];
      var reqs := Requests(elems); // createBatchRequest
      var reply := Forward(g, reqs, good);
      if elems == [] {
        NothingSent(g);
      }
      assert reply.Failed? ==> OutcomeOf(s) == Some(reply.failure);
      assert reply.Ok? && elems != [] ==> OutcomeOf(s) == None;
      if reply.Failed? && reply.failure in {CantBeBatched, InvalidTarget} {
        return before, true;
      }
      var res := if reply.Ok? then reply.res
                 else seq(|elems|, i requires 0 <= i < |elems| => Res(Some(elems[i].req.id), Error(ERR_FORWARD)));
      AllRight(raws, limited, s, reply, res, sent, good);
      SlotsStay(good, raws, limited, before, sent, s);
      responses := FillSlots(raws, limited, g, elems, res, reply.Ok?, before, sent + [s], good);
      aborted := false;
    }

    lemma AllRight(raws: seq<Raw>, limited: nat -> bool, s: Sending, reply: Reply, res: seq<Res>, sent: seq<Sending>, good: Answers)
      requires s.group in groups && BatchOk(raws, limited, s.group, s.elems)
      requires reply.Ok? ==> Aligned(good, Requests(s.elems), reply.res) && Aligned(good, SentAll(groups[s.group], Requests(s.elems)), reply.res)
      requires reply.Failed? ==> OutcomeOf(s).Some?
      requires res == if reply.Ok? then reply.res
                      else seq(|s.elems|, i requires 0 <= i < |s.elems| => Res(Some(s.elems[i].req.id), Error(ERR_FORWARD)))
      ensures |res| == |s.elems|
      ensures forall i :: 0 <= i < |res| ==> RightFor(good, raws, limited, s.elems[i], res[i], sent + [s])
      ensures reply.Ok? ==> forall i :: 0 <= i < |res| ==> Answer(good, Sent(groups[s.group], s.elems[i].req), res[i])
    {
      hide Direct, Sent, OutcomeOf, Answer;
      assert s in sent + [s];
      forall i | 0 <= i < |res|
        ensures RightFor(good, raws, limited, s.elems[i], res[i], sent + [s])
        ensures reply.Ok? ==> Answer(good, Sent(groups[s.group], s.elems[i].req), res[i])
      {
        assert s.elems[i] in s.elems && ElemOk(raws, limited, s.group, s.elems[i]);
        assert reply.Ok? ==> Answer(good, Requests(s.elems)[i], res[i]);
        assert reply.Failed? ==> CarriedAndFailed(s, raws[s.elems[i].index], s.elems[i].index);
      }
    }

    lemma NothingSent(g: Group)
      ensures Outcomes(g, Kept(g, Requests([])), 0) == None || Outcomes(g, Kept(g, Requests([])), 0) == Some(Unavailable)
    {
    }

    /** The result is a right one for the element's slot. */
    ghost predicate RightFor(good: Answers, raws: seq<Raw>, limited: nat -> bool, e: BatchElem, res: Res, sent: seq<Sending>) {
      e.index < |raws| && Right(good, raws[e.index], e.index, limited(e.index), res, sent)
    }

    /** Each result into its element's slot, and into the cache if it is an answer. */
    method FillSlots(raws: seq<Raw>, limited: nat -> bool, g: Group, elems: seq<BatchElem>, res: seq<Res>, answered: bool,
                     before: seq<Option<Res>>, ghost sent: seq<Sending>, ghost good: Answers)
      returns (responses: seq<Option<Res>>)
      requires Ok(good) && SlotsRight(good, raws, limited, before, sent) && |res| == |elems|
      requires forall i :: 0 <= i < |elems| ==> RightFor(good, raws, limited, elems[i], res[i], sent)
      requires answered ==> forall i :: 0 <= i < |elems| ==> Answer(good, Sent(g, elems[i].req), res[i])
      modifies this`cache
      ensures Ok(good)
      ensures SlotsRight(good, raws, limited, responses, sent) && MoreFilled(before, responses) && Filled(elems, responses)
    {
      hide Ok, Right, Answer, Sent;
      responses := before;
      for i := 0 to |elems|
        invariant Ok(good) && SlotsRight(good, raws, limited, responses, sent) && MoreFilled(before, responses)
        invariant Filled(elems[..i], responses)
      {
        assert RightFor(good, raws, limited, elems[i], res[i], sent);
        responses := responses[elems[i].index := Some(res[i])];
        if answered {
          PutRPC(Sent(g, elems[i].req), res[i], good);
        }
        assert elems[..i + 1] == elems[..i] + [elems[i]];
      }
      assert elems[..|elems|] == elems;
    }

    lemma SubBatch(raws: seq<Raw>, limited: nat -> bool, group: string, batch: seq<BatchElem>, start: nat, end: nat)
      requires BatchOk(raws, limited, group, batch) && start <= end <= |batch|
      ensures BatchOk(raws, limited, group, batch[start..end])
    {
      var sub := batch[start..end];
      forall i, j | 0 <= i < j < |sub|
        ensures Requests(sub)[i].id != Requests(sub)[j].id
      {
        assert Requests(batch)[start + i].id != Requests(batch)[start + j].id;
      }
    }

    /** One group: the cache first, then mini-batches no larger than the limit. expired says at which
        mini-batch the deadline has passed. */
    method ServeBatch(raws: seq<Raw>, limited: nat -> bool, group: string, batch: seq<BatchElem>, before: seq<Option<Res>>,
                      expired: nat -> bool, ghost sent0: seq<Sending>, ghost good: Answers)
      returns (responses: seq<Option<Res>>, aborted: bool, ghost sent: seq<Sending>)
      requires Ok(good) && group in groups && SlotsRight(good, raws, limited, before, sent0) && BatchOk(raws, limited, group, batch)
      requires SentOk(raws, limited, sent0) && NoneAborts(sent0)
      modifies this`cache
      ensures Ok(good) && SentOk(raws, limited, sent)
      ensures if aborted then AbortedBy(sent, expired)
              else NoneAborts(sent) && SlotsRight(good, raws, limited, responses, sent) && MoreFilled(before, responses) && Filled(batch, responses)
    {
      hide Right, SlotsRight, Aborts, NoneAborts, SentOk, BatchOk, Filled, MoreFilled;
      var misses;
      responses, misses := FromCache(raws, limited, group, batch, before, sent0, good);
      ghost var cached := responses;
      sent := sent0;
      var start, i := 0, 0;
      SameFilled(responses);
      NothingFilled(responses);
      while start < |misses|
        invariant start <= |misses| && Ok(good) && SentOk(raws, limited, sent) && NoneAborts(sent)
        invariant SlotsRight(good, raws, limited, responses, sent) && MoreFilled(cached, responses)
        invariant Filled(misses[..start], responses)
      {
        if expired(i) {
          return responses, true, sent;
        }
        var end := Min(start + maxUpstreamBatchSize, |misses|);
        SubBatch(raws, limited, group, misses, start, end);
        ghost var prev := responses;
        responses, aborted := ServeElems(raws, limited, group, misses[start..end], responses, sent, good);
        SentOneMore(raws, limited, sent, Sending(group, misses[start..end]));
        sent := sent + [Sending(group, misses[start..end])];
        if aborted {
          return;
        }
        FilledMore(misses[..start], prev, responses);
        MoreFilledTrans(cached, prev, responses);
        assert misses[..end] == misses[..start] + misses[start..end];
        FilledBoth(misses[..start], misses[start..end], responses);
        start, i := end, i + 1;
      }
      assert misses[..start] == misses;
      WholeBatch(raws, limited, group, batch, misses, before, cached, responses);
      aborted := false;
    }

    /** A batch is aborted at the deadline, or by the mini-batch sent last. */
    ghost predicate AbortedBy(sent: seq<Sending>, expired: nat -> bool) {
      (exists i: nat :: expired(i)) || (sent != [] && Aborts(sent[|sent| - 1]))
    }

    lemma SentOneMore(raws: seq<Raw>, limited: nat -> bool, sent: seq<Sending>, s: Sending)
      requires SentOk(raws, limited, sent) && s.group in groups && BatchOk(raws, limited, s.group, s.elems) && |s.elems| <= maxUpstreamBatchSize
      ensures SentOk(raws, limited, sent + [s])
      ensures NoneAborts(sent) && !Aborts(s) ==> NoneAborts(sent + [s])
    {
      hide BatchOk, Aborts;
    }

    lemma SameFilled(responses: seq<Option<Res>>)
      ensures MoreFilled(responses, responses)
    {
    }

    lemma NothingFilled(responses: seq<Option<Res>>)
      ensures Filled([], responses)
    {
    }

    lemma MoreFilledTrans(a: seq<Option<Res>>, b: seq<Option<Res>>, c: seq<Option<Res>>)
      requires MoreFilled(a, b) && MoreFilled(b, c)
      ensures MoreFilled(a, c)
    {
    }

    lemma FilledBoth(a: seq<BatchElem>, b: seq<BatchElem>, responses: seq<Option<Res>>)
      requires Filled(a, responses) && Filled(b, responses)
      ensures Filled(a + b, responses)
    {
    }

    /** Every element of the batch was in the cache or was sent. */
    lemma WholeBatch(raws: seq<Raw>, limited: nat -> bool, group: string, batch: seq<BatchElem>, misses: seq<BatchElem>,
                     before: seq<Option<Res>>, cached: seq<Option<Res>>, responses: seq<Option<Res>>)
      requires |before| == |raws|
      requires MoreFilled(before, cached) && MoreFilled(cached, responses) && Filled(misses, responses)
      requires forall e :: e in batch ==> e.index < |raws| && (cached[e.index].Some? || e in misses)
      ensures Filled(batch, responses) && MoreFilled(before, responses)
    {
    }

    lemma FilledMore(elems: seq<BatchElem>, before: seq<Option<Res>>, after: seq<Option<Res>>)
      requires Filled(elems, before) && MoreFilled(before, after)
      ensures Filled(elems, after)
    {
    }

    /** handleBatchRPC: unless the whole batch is aborted, every slot is filled, and with the right answer:
        under its request's own id and answering that request, whatever ids repeat, whatever the cache
        holds, and in whatever order groups are served and backends reply. A slot holds the forwarding error
        only if the mini-batch with its request failed. The batch is aborted only at the deadline or for a
        failure that is not passed on, which no mini-batch sent before it had. */
    method HandleBatchRPC(raws: seq<Raw>, limited: nat -> bool, expired: nat -> bool, ghost good: Answers)
      returns (r: Outcome, ghost sent: seq<Sending>)
      requires Ok(good)
      modifies this`cache
      ensures Ok(good) && SentOk(raws, limited, sent)
      ensures r.Responses? ==>
        NoneAborts(sent) && |r.res| == |raws| && forall i :: 0 <= i < |raws| ==> Right(good, raws[i], i, limited(i), r.res[i], sent)
      ensures r.Aborted? ==> AbortedBy(sent, expired)
    {
      hide Right, Aborts, BatchOk, Filled, MoreFilled;
      var responses, batches := SplitBatch(raws, limited, good);
      ghost var split := responses;
      sent := [];
      SameFilled(split);
      var left := batches.Keys;
      while left != {}
        invariant left <= batches.Keys && Ok(good) && SentOk(raws, limited, sent) && NoneAborts(sent)
        invariant SlotsRight(good, raws, limited, responses, sent) && MoreFilled(split, responses)
        invariant forall key :: key in batches && key !in left ==> Filled(batches[key], responses)
        decreases |left|
      {
        var key :| key in left; // map iteration: any order
        ghost var prev := responses;
        var aborted;
        responses, aborted, sent := ServeBatch(raws, limited, key.backendGroup, batches[key], responses, expired, sent, good);
        if aborted {
          return Aborted, sent;
        }
        MoreFilledTrans(split, prev, responses);
        forall k | k in batches && k !in left
          ensures Filled(batches[k], responses)
        {
          FilledMore(batches[k], prev, responses);
        }
        left := left - {key};
      }
      AllFilled(raws, batches, split, responses);
      r := Responses(seq(|responses|, i requires 0 <= i < |responses| && responses[i].Some? => responses[i].value));
    }

    lemma AllFilled(raws: seq<Raw>, batches: Batches, split: seq<Option<Res>>, responses: seq<Option<Res>>)
      requires |raws| == |split| && MoreFilled(split, responses) && forall key :: key in batches ==> Filled(batches[key], responses)
      requires forall i :: 0 <= i < |raws| ==> split[i].Some? || exists key :: key in batches && BatchElem(raws[i].req, i) in batches[key]
      ensures forall i :: 0 <= i < |responses| ==> responses[i].Some?
    {
      forall i | 0 <= i < |raws|
        ensures responses[i].Some?
      {
        if split[i].None? {
          var key :| key in batches && BatchElem(raws[i].req, i) in batches[key];
          assert Filled(batches[key], responses);
        }
      }
    }
  }
}
