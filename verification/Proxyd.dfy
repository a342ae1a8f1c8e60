/** proxyd's batch pipeline: requests of one batch are split into groups without duplicate ids, answered
    from the cache or forwarded in mini-batches to backends that answer in any order, partly overridden
    by consensus rewriting, and every answer is put back into its own slot. */
module Proxyd {
  import opened Words

  /** A request as parsed, with its method name; its parameters matter only as a value. */
  datatype Req = Req(name: string, params: nat, id: string)

  datatype Body = Value(payload: nat) | Null | Error(code: int)

  /** The id is absent in answers to requests that have none. */
  datatype Res = Res(id: Option<string>, body: Body)

  /** Which bodies answer which method and parameters. */
  type Answers = (string, nat, Body) -> bool

  ghost predicate Answer(good: Answers, req: Req, res: Res) {
    res.id == Some(req.id) && good(req.name, req.params, res.body)
  }

  predicate DistinctIds(reqs: seq<Req>) {
    forall i, j :: 0 <= i < j < |reqs| ==> reqs[i].id != reqs[j].id
  }

  function ReqIds(reqs: seq<Req>): (ids: seq<Option<string>>)
    ensures |ids| == |reqs| && forall i :: 0 <= i < |ids| ==> ids[i] == Some(reqs[i].id)
  {
    seq(|reqs|, i requires 0 <= i < |reqs| => Some(reqs[i].id))
  }

  function ResIds(res: seq<Res>): (ids: seq<Option<string>>)
    ensures |ids| == |res| && forall i :: 0 <= i < |ids| ==> ids[i] == res[i].id
  {
    seq(|res|, i requires 0 <= i < |res| => res[i].id)
  }

  /** The answers come in any order: their ids are those of the requests, and each is good for its own. */
  ghost predicate AnyOrder(good: Answers, reqs: seq<Req>, res: seq<Res>) {
    && multiset(ResIds(res)) == multiset(ReqIds(reqs))
    && forall q, r :: q in reqs && r in res && r.id == Some(q.id) ==> Answer(good, q, r)
  }

  /** Answer i is to request i. */
  ghost predicate Aligned(good: Answers, reqs: seq<Req>, res: seq<Res>) {
    |res| == |reqs| && forall i :: 0 <= i < |reqs| ==> Answer(good, reqs[i], res[i])
  }

  // ------------------------------------------------------------------ sortBatchRPCResponse

  /** The position of the request with the id; 0, as in a Go map, if there is none. */
  function Pos(reqs: seq<Req>, id: Option<string>): (p: nat)
    ensures (exists i :: 0 <= i < |reqs| && Some(reqs[i].id) == id) ==> p < |reqs| && Some(reqs[p].id) == id
  {
    if reqs == [] then 0
    else if Some(reqs[|reqs| - 1].id) == id then |reqs| - 1
    else Pos(reqs[..|reqs| - 1], id)
  }

  predicate SortedByPos(reqs: seq<Req>, res: seq<Res>) {
    forall i, j :: 0 <= i < j < |res| ==> Pos(reqs, res[i].id) <= Pos(reqs, res[j].id)
  }

  method SortBatchRPCResponse(reqs: seq<Req>, res: seq<Res>) returns (sorted: seq<Res>)
    ensures SortedByPos(reqs, sorted) && |sorted| == |res|
    ensures multiset(ResIds(sorted)) == multiset(ResIds(res))
    ensures forall r :: r in sorted ==> r in res
  {
    hide SortedByPos, ResIds;
    NothingToSort(reqs);
    sorted := [];
    for k := 0 to |res|
      invariant |sorted| == k && SortedByPos(reqs, sorted)
      invariant multiset(ResIds(sorted)) == multiset(ResIds(res[..k]))
      invariant forall r :: r in sorted ==> r in res
    {
      var i := Place(reqs, sorted, res[k]);
      InsertSorted(reqs, sorted, i, res[k]);
      InsertedIds(sorted, i, res[k]);
      InsertedIds(res[..k], k, res[k]);
      assert res[..k + 1] == res[..k][..k] + [res[k]] + res[..k][k..];
      sorted := sorted[..i] + [res[k]] + sorted[i..];
    }
    assert res[..|res|] == res;
  }

  lemma NothingToSort(reqs: seq<Req>)
    ensures SortedByPos(reqs, [])
  {
  }

  /** Where the next answer belongs among those already sorted. */
  method Place(reqs: seq<Req>, sorted: seq<Res>, r: Res) returns (i: nat)
    requires SortedByPos(reqs, sorted)
    ensures i <= |sorted|
    ensures forall j :: 0 <= j < i ==> Pos(reqs, sorted[j].id) <= Pos(reqs, r.id)
    ensures forall j :: i <= j < |sorted| ==> Pos(reqs, sorted[j].id) >= Pos(reqs, r.id)
  {
    hide Pos;
    i := |sorted|;
    while i > 0 && Pos(reqs, sorted[i - 1].id) > Pos(reqs, r.id)
      invariant 0 <= i <= |sorted|
      invariant forall j :: i <= j < |sorted| ==> Pos(reqs, sorted[j].id) > Pos(reqs, r.id)
    {
      i := i - 1;
    }
  }

  lemma InsertSorted(reqs: seq<Req>, s: seq<Res>, i: nat, r: Res)
    requires SortedByPos(reqs, s) && i <= |s|
    requires forall j :: 0 <= j < i ==> Pos(reqs, s[j].id) <= Pos(reqs, r.id)
    requires forall j :: i <= j < |s| ==> Pos(reqs, s[j].id) >= Pos(reqs, r.id)
    ensures SortedByPos(reqs, s[..i] + [r] + s[i..])
  {
    hide Pos;
    var t := s[..i] + [r] + s[i..];
    assert forall k :: 0 <= k < |t| ==> t[k] == if k < i then s[k] else if k == i then r else s[k - 1];
  }

  lemma InsertedIds(s: seq<Res>, i: nat, r: Res)
    requires i <= |s|
    ensures multiset(ResIds(s[..i] + [r] + s[i..])) == multiset(ResIds(s)) + multiset{r.id}
  {
    var ids := ResIds(s);
    assert ids == ids[..i] + ids[i..];
    assert ResIds(s[..i] + [r] + s[i..]) == ids[..i] + [r.id] + ids[i..];
  }

  lemma {:induction false} DistinctCount(reqs: seq<Req>, x: Option<string>)
    requires DistinctIds(reqs)
    ensures multiset(ReqIds(reqs))[x] <= 1
    decreases |reqs|
  {
    if reqs != [] {
      var n := |reqs| - 1;
      DistinctCount(reqs[..n], x);
      assert ReqIds(reqs) == ReqIds(reqs[..n]) + [Some(reqs[n].id)];
      if x == Some(reqs[n].id) {
        assert x !in ReqIds(reqs[..n]);
      }
    }
  }

  lemma TwiceCounted(s: seq<Option<string>>, i: nat, j: nat)
    requires i < j < |s| && s[i] == s[j]
    ensures multiset(s)[s[i]] >= 2
  {
    assert s == s[..j] + s[j..];
    assert s[i] in s[..j] && s[j] in s[j..];
  }

  /** A strictly increasing sequence of n positions below n is 0, 1, ..., n-1. */
  lemma {:induction false} IncreasingIsIdentity(p: seq<nat>, i: nat)
    requires forall k :: 0 <= k < |p| ==> p[k] < |p|
    requires forall k :: 0 < k < |p| ==> p[k - 1] < p[k]
    requires i < |p|
    ensures p[i] >= i
    decreases i
  {
    if i > 0 {
      IncreasingIsIdentity(p, i - 1);
    }
  }

  lemma {:induction false} IncreasingBelow(p: seq<nat>, i: nat)
    requires forall k :: 0 <= k < |p| ==> p[k] < |p|
    requires forall k :: 0 < k < |p| ==> p[k - 1] < p[k]
    requires i < |p|
    ensures p[i] <= i
    decreases |p| - i
  {
    if i + 1 < |p| {
      IncreasingBelow(p, i + 1);
    }
  }

  /** Sorting answers that came in any order by their requests' positions aligns them. */
  lemma SortedIsAligned(good: Answers, reqs: seq<Req>, res: seq<Res>, sorted: seq<Res>)
    requires DistinctIds(reqs) && AnyOrder(good, reqs, res)
    requires SortedByPos(reqs, sorted) && multiset(ResIds(sorted)) == multiset(ResIds(res))
    requires forall r :: r in sorted ==> r in res
    ensures Aligned(good, reqs, sorted)
  {
    var ids := ResIds(sorted);
    assert |sorted| == |multiset(ids)| == |multiset(ReqIds(reqs))| == |reqs|;
    forall i | 0 <= i < |ids|
      ensures Pos(reqs, ids[i]) < |reqs| && Some(reqs[Pos(reqs, ids[i])].id) == ids[i]
    {
      assert ids[i] in multiset(ids);
      assert ids[i] in ReqIds(reqs);
      var k :| 0 <= k < |reqs| && ReqIds(reqs)[k] == ids[i];
      assert Some(reqs[k].id) == ids[i];
    }
    var p: seq<nat> := seq(|ids|, i requires 0 <= i < |ids| => Pos(reqs, ids[i]));
    forall k | 0 < k < |p|
      ensures p[k - 1] < p[k]
    {
      if p[k - 1] == p[k] {
        TwiceCounted(ids, k - 1, k);
        DistinctCount(reqs, ids[k]);
      }
    }
    forall i | 0 <= i < |reqs|
      ensures Answer(good, reqs[i], sorted[i])
    {
      IncreasingIsIdentity(p, i);
      IncreasingBelow(p, i);
      assert sorted[i] in res && reqs[i] in reqs;
    }
  }

  // ------------------------------------------------------------------ one backend

  datatype Failure = TooLarge | CantBeBatched | InvalidTarget | UnexpectedJSONRPC | NotWhitelisted | Unavailable

  datatype Reply = Ok(res: seq<Res>) | Failed(failure: Failure)

  /** What the backend's HTTP endpoint replies to the requests on the given attempt. */
  datatype Backend = Backend(reply: (seq<Req>, nat) -> Reply, maxRetries: nat)

  /** The backend answers every request it was sent exactly once, as JSON-RPC 2.0 section 6 asks, in any order. */
  ghost predicate Conforming(b: Backend, good: Answers) {
    forall reqs: seq<Req>, k: nat ::
      DistinctIds(reqs) && b.reply(reqs, k).Ok? && |b.reply(reqs, k).res| == |reqs| ==> AnyOrder(good, reqs, b.reply(reqs, k).res)
  }

  /** What an attempt comes to: a failure, or None for as many answers as requests. */
  function Attempt(b: Backend, reqs: seq<Req>, attempt: nat): Option<Failure> {
    match b.reply(reqs, attempt)
    case Failed(f) => Some(f)
    case Ok(res) => if |reqs| != |res| then Some(UnexpectedJSONRPC) else None
  }

  const NOT_RETRIED: set<Failure> := {TooLarge, CantBeBatched, InvalidTarget, UnexpectedJSONRPC}

  /** The outcome from the given attempt on; the last failure if all retries are used up. */
  function Attempts(b: Backend, reqs: seq<Req>, attempt: nat, last: Failure): Option<Failure>
    decreases b.maxRetries + 1 - attempt
  {
    if attempt > b.maxRetries then Some(last)
    else
      match Attempt(b, reqs, attempt)
      case None => None
      case Some(f) => if f in NOT_RETRIED then Some(f) else Attempts(b, reqs, attempt + 1, f)
  }

  /** doForward after the reply is decoded: check the number of answers, then sort them. */
  method DoForward(b: Backend, reqs: seq<Req>, attempt: nat, ghost good: Answers) returns (r: Reply)
    requires DistinctIds(reqs) && Conforming(b, good)
    ensures r.Ok? ==> Aligned(good, reqs, r.res)
    ensures Attempt(b, reqs, attempt) == if r.Ok? then None else Some(r.failure)
  {
    var reply := b.reply(reqs, attempt);
    if reply.Failed? {
      return reply;
    }
    if |reqs| != |reply.res| {
      return Failed(UnexpectedJSONRPC);
    }
    var sorted := SortBatchRPCResponse(reqs, reply.res);
    SortedIsAligned(good, reqs, reply.res, sorted);
    r := Ok(sorted);
  }

  /** Backend.Forward: retry the failures that may pass. */
  method BackendForward(b: Backend, reqs: seq<Req>, ghost good: Answers) returns (r: Reply)
    requires DistinctIds(reqs) && Conforming(b, good)
    ensures r.Ok? ==> Aligned(good, reqs, r.res)
    ensures Attempts(b, reqs, 0, Unavailable) == if r.Ok? then None else Some(r.failure)
  {
    r := Failed(Unavailable);
    var i := 0;
    while i <= b.maxRetries
      invariant i <= b.maxRetries + 1 && r.Failed?
      invariant Attempts(b, reqs, 0, Unavailable) == Attempts(b, reqs, i, r.failure)
    {
      r := DoForward(b, reqs, i, good);
      if r.Ok? || r.failure in NOT_RETRIED {
        return;
      }
      i := i + 1;
    }
  }

  // ------------------------------------------------------------------ a group of backends

  /** What rewriting block tags does to a request: answer it, or send it on, maybe with new parameters. */
  datatype Rewrite = OverrideError(code: int) | OverrideResponse(payload: nat) | Send(params: nat)

  datatype Group = Group(backends: seq<Backend>, rewrite: Option<Req -> Rewrite>)

  ghost predicate GroupConforming(g: Group, good: Answers) {
    && (forall b :: b in g.backends ==> Conforming(b, good))
    && (g.rewrite.Some? ==> forall r: Req :: RewriteSound(g.rewrite.value(r), r, good))
  }

  /** An answer to the rewritten request answers the original one; so does an overriding answer. */
  ghost predicate RewriteSound(rw: Rewrite, req: Req, good: Answers) {
    match rw
    case OverrideError(code) => good(req.name, req.params, Error(code))
    case OverrideResponse(x) => good(req.name, req.params, Value(x))
    case Send(p) => forall body: Body :: good(req.name, p, body) ==> good(req.name, req.params, body)
  }

  function Rewritten(g: Group, req: Req): Rewrite {
    if g.rewrite.Some? then g.rewrite.value(req) else Send(req.params)
  }

  /** The overriding answer, if the request is not sent on. */
  function Override(g: Group, req: Req): Option<Res> {
    match Rewritten(g, req)
    case OverrideError(code) => Some(Res(Some(req.id), Error(code)))
    case OverrideResponse(x) => Some(Res(Some(req.id), Value(x)))
    case Send(_) => None
  }

  /** The request as it is sent, its parameters replaced in place. */
  function Sent(g: Group, req: Req): Req {
    match Rewritten(g, req)
    case Send(p) => req.(params := p)
    case _ => req
  }

  /** The requests that are sent on, in order. */
  function Kept(g: Group, reqs: seq<Req>): seq<Req> {
    if reqs == [] then []
    else Kept(g, reqs[..|reqs| - 1]) + (if Override(g, reqs[|reqs| - 1]).None? then [Sent(g, reqs[|reqs| - 1])] else [])
  }

  function IdsOf(reqs: seq<Req>): set<string> {
    set i | 0 <= i < |reqs| :: reqs[i].id
  }

  lemma {:induction false} KeptDistinct(g: Group, reqs: seq<Req>)
    requires DistinctIds(reqs)
    ensures DistinctIds(Kept(g, reqs))
    ensures forall q :: q in Kept(g, reqs) ==> q.id in IdsOf(reqs)
    decreases |reqs|
  {
    if reqs != [] {
      var n := |reqs| - 1;
      KeptDistinct(g, reqs[..n]);
      assert reqs[n].id !in IdsOf(reqs[..n]);
      assert forall i :: 0 <= i < n ==> reqs[i] == reqs[..n][i];
    }
  }

  /** The answers in request order: overriding ones in their places, the others taken in turn. */
  function Weave(g: Group, reqs: seq<Req>, res: seq<Res>): seq<Res>
    requires |res| == |Kept(g, reqs)|
  {
    if reqs == [] then []
    else
      var last := reqs[|reqs| - 1];
      if Override(g, last).Some? then Weave(g, reqs[..|reqs| - 1], res) + [Override(g, last).value]
      else Weave(g, reqs[..|reqs| - 1], res[..|res| - 1]) + [res[|res| - 1]]
  }

  /** All requests as the rewriting left them. */
  function SentAll(g: Group, reqs: seq<Req>): (s: seq<Req>)
    ensures |s| == |reqs| && forall i :: 0 <= i < |reqs| ==> s[i] == Sent(g, reqs[i])
  {
    seq(|reqs|, i requires 0 <= i < |reqs| => Sent(g, reqs[i]))
  }

  /** Woven answers to the requests that were sent on are aligned with all requests. */
  lemma {:induction false} WeaveAligned(g: Group, good: Answers, reqs: seq<Req>, res: seq<Res>)
    requires GroupConforming(g, good) && Aligned(good, Kept(g, reqs), res)
    ensures Aligned(good, SentAll(g, reqs), Weave(g, reqs, res))
    decreases |reqs|
  {
    hide GroupConforming, Aligned, Answer, Sent, Rewritten;
    AlignedLength(good, Kept(g, reqs), res);
    if reqs == [] {
      AlignedEmpty(good);
    } else {
      var n := |reqs| - 1;
      var last := reqs[n];
      if Override(g, last).Some? {
        assert Kept(g, reqs) == Kept(g, reqs[..n]) + [] == Kept(g, reqs[..n]);
        WeaveAligned(g, good, reqs[..n], res);
        OverrideAnswers(g, good, last);
        AlignedAppend(good, SentAll(g, reqs[..n]), Weave(g, reqs[..n], res), Sent(g, last), Override(g, last).value);
      } else {
        var kept := Kept(g, reqs[..n]);
        assert Kept(g, reqs) == kept + [Sent(g, last)];
        AlignedPrefix(good, kept, Sent(g, last), res);
        WeaveAligned(g, good, reqs[..n], res[..|res| - 1]);
        AlignedAppend(good, SentAll(g, reqs[..n]), Weave(g, reqs[..n], res[..|res| - 1]), Sent(g, last), res[|res| - 1]);
      }
      assert SentAll(g, reqs) == SentAll(g, reqs[..n]) + [Sent(g, last)];
    }
  }

  /** What answers the requests as sent answers the original requests. */
  lemma AlignedOriginal(g: Group, good: Answers, reqs: seq<Req>, res: seq<Res>)
    requires GroupConforming(g, good) && Aligned(good, SentAll(g, reqs), res)
    ensures Aligned(good, reqs, res)
  {
    forall i | 0 <= i < |reqs|
      ensures Answer(good, reqs[i], res[i])
    {
      SentAnswers(g, good, reqs[i], res[i]);
    }
  }

  lemma OverrideAnswers(g: Group, good: Answers, req: Req)
    requires GroupConforming(g, good) && Override(g, req).Some?
    ensures Answer(good, Sent(g, req), Override(g, req).value)
  {
    if g.rewrite.Some? {
      assert RewriteSound(g.rewrite.value(req), req, good);
    }
  }

  lemma SentAnswers(g: Group, good: Answers, req: Req, res: Res)
    requires GroupConforming(g, good) && Answer(good, Sent(g, req), res)
    ensures Answer(good, req, res)
  {
    if g.rewrite.Some? {
      assert RewriteSound(g.rewrite.value(req), req, good);
    }
  }

  lemma AlignedEmpty(good: Answers)
    ensures Aligned(good, [], [])
  {
  }

  lemma AlignedAppend(good: Answers, reqs: seq<Req>, res: seq<Res>, req: Req, r: Res)
    requires Aligned(good, reqs, res) && Answer(good, req, r)
    ensures Aligned(good, reqs + [req], res + [r])
  {
    hide Answer;
  }

  lemma AlignedPrefix(good: Answers, reqs: seq<Req>, req: Req, res: seq<Res>)
    requires Aligned(good, reqs + [req], res)
    ensures Aligned(good, reqs, res[..|reqs|]) && |res| == |reqs| + 1 && Answer(good, req, res[|reqs|])
  {
    hide Answer;
    assert forall i :: 0 <= i < |reqs| ==> (reqs + [req])[i] == reqs[i];
    assert (reqs + [req])[|reqs|] == req;
  }

  /** The overriding answers with the positions of their requests. */
  function OverridesOf(g: Group, reqs: seq<Req>): seq<(nat, Res)> {
    if reqs == [] then []
    else
      var n := |reqs| - 1;
      OverridesOf(g, reqs[..n]) + (if Override(g, reqs[n]).Some? then [(n, Override(g, reqs[n]).value)] else [])
  }

  /** One turn of the loop that puts overriding answers back; positions past the end are not reached. */
  function InsertAt(res: seq<Res>, i: nat, r: Res): seq<Res> {
    if |res| > 0 && i <= |res| then res[..i] + [r] + res[i..] else res + [r]
  }

  function ReinsertAll(res: seq<Res>, overrides: seq<(nat, Res)>): seq<Res> {
    if overrides == [] then res
    else
      var last := overrides[|overrides| - 1];
      InsertAt(ReinsertAll(res, overrides[..|overrides| - 1]), last.0, last.1)
  }

  /** Inserting the overriding answers one by one, each at its request's position in what is there so
      far, weaves them in. */
  lemma {:induction false} ReinsertWeaves(g: Group, reqs: seq<Req>, res: seq<Res>)
    requires |res| >= |Kept(g, reqs)|
    ensures |Weave(g, reqs, res[..|Kept(g, reqs)|])| == |reqs|
    ensures ReinsertAll(res, OverridesOf(g, reqs)) == Weave(g, reqs, res[..|Kept(g, reqs)|]) + res[|Kept(g, reqs)|..]
    decreases |reqs|
  {
    if reqs != [] {
      hide Override, Sent, InsertAt;
      var n := |reqs| - 1;
      var c := |Kept(g, reqs[..n])|;
      ReinsertWeaves(g, reqs[..n], res);
      var woven := Weave(g, reqs[..n], res[..c]);
      if Override(g, reqs[n]).Some? {
        var overrides := OverridesOf(g, reqs);
        assert overrides[..|overrides| - 1] == OverridesOf(g, reqs[..n]);
        InsertAfter(woven, res[c..], Override(g, reqs[n]).value);
      } else {
        assert |Kept(g, reqs)| == c + 1;
        assert OverridesOf(g, reqs) == OverridesOf(g, reqs[..n]);
        KeptLast(woven, res, c);
        assert Weave(g, reqs, res[..c + 1]) == woven + [res[c]];
      }
    }
  }

  lemma InsertAfter(woven: seq<Res>, rest: seq<Res>, r: Res)
    ensures InsertAt(woven + rest, |woven|, r) == (woven + [r]) + rest
  {
    assert (woven + rest)[..|woven|] == woven && (woven + rest)[|woven|..] == rest;
  }

  lemma KeptLast(woven: seq<Res>, res: seq<Res>, c: nat)
    requires c < |res|
    ensures res[..c + 1][..c] == res[..c] && res[..c + 1][c] == res[c]
    ensures woven + res[c..] == (woven + [res[c]]) + res[c + 1..]
  {
    assert res[c..] == [res[c]] + res[c + 1..];
  }

  lemma {:induction false} KeptWithoutRewriting(g: Group, reqs: seq<Req>)
    requires g.rewrite.None?
    ensures Kept(g, reqs) == reqs && OverridesOf(g, reqs) == []
    decreases |reqs|
  {
    if reqs != [] {
      KeptWithoutRewriting(g, reqs[..|reqs| - 1]);
    }
  }

  /** BackendGroup.Forward: rewrite, try the backends in turn, put the overriding answers back. The
      answers are aligned with the requests, and answer them also in their rewritten form. */
  method Forward(g: Group, reqs: seq<Req>, ghost good: Answers) returns (r: Reply)
    requires DistinctIds(reqs) && GroupConforming(g, good)
    ensures r.Ok? ==> Aligned(good, reqs, r.res) && Aligned(good, SentAll(g, reqs), r.res)
    ensures r.Failed? <==> reqs != [] && Outcomes(g, Kept(g, reqs), 0).Some?
    ensures r.Failed? ==> Outcomes(g, Kept(g, reqs), 0) == Some(r.failure)
  {
    if reqs == [] {
      return Ok([]);
    }
    hide Kept, Weave, Override, Sent, SentAll, OverridesOf, ReinsertAll, Aligned, GroupConforming;
    var overridden, rpcReqs := RewriteAll(g, reqs);
    KeptDistinct(g, reqs);
    r := TryBackends(g, rpcReqs, good);
    if r.Ok? {
      AlignedLength(good, rpcReqs, r.res);
      ReinsertWeaves(g, reqs, r.res);
      WeaveAligned(g, good, reqs, r.res);
      assert r.res[..|rpcReqs|] == r.res;
      var res := Reinsert(r.res, overridden);
      AlignedOriginal(g, good, reqs, res);
      r := Ok(res);
    }
  }

  lemma AlignedLength(good: Answers, reqs: seq<Req>, res: seq<Res>)
    requires Aligned(good, reqs, res)
    ensures |res| == |reqs|
  {
  }

  /** The overriding answers with their positions, and the requests that are sent on. */
  method RewriteAll(g: Group, reqs: seq<Req>) returns (overridden: seq<(nat, Res)>, rpcReqs: seq<Req>)
    ensures overridden == OverridesOf(g, reqs) && rpcReqs == Kept(g, reqs)
  {
    overridden := [];
    if g.rewrite.None? {
      KeptWithoutRewriting(g, reqs);
      return overridden, reqs;
    }
    rpcReqs := [];
    for i := 0 to |reqs|
      invariant rpcReqs == Kept(g, reqs[..i]) && overridden == OverridesOf(g, reqs[..i])
    {
      assert reqs[..i + 1][..i] == reqs[..i];
      match g.rewrite.value(reqs[i]) {
        case OverrideError(code) => overridden := overridden + [(i, Res(Some(reqs[i].id), Error(code)))];
        case OverrideResponse(x) => overridden := overridden + [(i, Res(Some(reqs[i].id), Value(x)))];
        case Send(p) => rpcReqs := rpcReqs + [reqs[i].(params := p)];
      }
    }
    assert reqs[..|reqs|] == reqs;
  }

  method Reinsert(answers: seq<Res>, overridden: seq<(nat, Res)>) returns (res: seq<Res>)
    ensures res == ReinsertAll(answers, overridden)
  {
    res := answers;
    for k := 0 to |overridden|
      invariant res == ReinsertAll(answers, overridden[..k])
    {
      var (index, ov) := overridden[k];
      assert overridden[..k + 1][..k] == overridden[..k];
      if |res| > 0 && index <= |res| {
        // insert ov at position index
        res := res[..index] + [ov] + res[index..];
      } else {
        res := res + [ov];
      }
    }
    assert overridden[..|overridden|] == overridden;
  }

  const NOT_PASSED_ON: set<Failure> := {CantBeBatched, InvalidTarget, NotWhitelisted, TooLarge}

  /** What trying the backends from the i-th on comes to. */
  function Outcomes(g: Group, rpcReqs: seq<Req>, i: nat): Option<Failure>
    decreases |g.backends| - i
  {
    if i >= |g.backends| then Some(Unavailable)
    else if rpcReqs == [] then None
    else
      match Attempts(g.backends[i], rpcReqs, 0, Unavailable)
      case None => None
      case Some(f) => if f in NOT_PASSED_ON then Some(f) else Outcomes(g, rpcReqs, i + 1)
  }

  /** The first backend that serves the requests; none is asked if there is nothing left to send. */
  method TryBackends(g: Group, rpcReqs: seq<Req>, ghost good: Answers) returns (r: Reply)
    requires DistinctIds(rpcReqs) && GroupConforming(g, good)
    ensures r.Ok? ==> Aligned(good, rpcReqs, r.res)
    ensures Outcomes(g, rpcReqs, 0) == if r.Ok? then None else Some(r.failure)
  {
    for i := 0 to |g.backends|
      invariant Outcomes(g, rpcReqs, 0) == Outcomes(g, rpcReqs, i)
    {
      if rpcReqs == [] {
        return Ok([]);
      }
      r := BackendForward(g.backends[i], rpcReqs, good);
      if r.Ok? || r.failure in NOT_PASSED_ON {
        return;
      }
    }
    r := Failed(Unavailable);
  }
}
