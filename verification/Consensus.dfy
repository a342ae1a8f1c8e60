/** proxyd's consensus poller: the block tags of each backend, the candidates of the consensus group,
    and the walk back to a block they all agree on. */
module Consensus {
  import opened Words
  import opened Sentinel

  // ------------------------------------------------------------------ one backend's tags

  datatype BackendState = BackendState(
    latest: u64,
    latestHash: string,
    safe: u64,
    finalized: u64,
    peerCount: u64,
    inSync: bool,
    lastUpdate: int,
    bannedUntil: int)

  const NEW_STATE: BackendState := BackendState(0, "", 0, 0, 0, false, 0, 0)

  datatype Backend = Backend(forcedCandidate: bool, skipPeerCountCheck: bool)

  predicate IsBanned(s: BackendState, now: int) { now < s.bannedUntil }

  predicate TagsOrdered(s: BackendState) { s.finalized <= s.safe <= s.latest }

  predicate CheckExpectedBlockTags(latest: u64, oldSafe: u64, safe: u64, oldFinalized: u64, finalized: u64) {
    finalized >= oldFinalized && safe >= oldSafe && finalized <= safe && safe <= latest
  }

  datatype Update = Skipped | Taken | Banned

  /** How each kind of update moves a backend's tags: not at all; forward in order; to zero, with a ban. A
      forced candidate is never banned, and its tags are taken as they come. */
  predicate Moves(update: Update, before: BackendState, after: BackendState, forced: bool, now: int, banPeriod: int) {
    match update
    case Skipped => after == before && IsBanned(before, now)
    case Banned => !forced && after.latest == after.safe == after.finalized == 0 && after.bannedUntil == now + banPeriod
    case Taken =>
      && !IsBanned(before, now) && after.bannedUntil == before.bannedUntil
      && (forced || (TagsOrdered(after) && after.safe >= before.safe && after.finalized >= before.finalized))
  }

  /** A run of updates from a fresh state, with the kind and the time of each. */
  predicate TagRun(states: seq<BackendState>, updates: seq<Update>, times: seq<int>, forced: bool, banPeriod: int) {
    && |states| == |times| + 1 && |updates| == |times| && states[0] == NEW_STATE
    && forall i :: 0 <= i < |times| ==> Moves(updates[i], states[i], states[i + 1], forced, times[i], banPeriod)
  }

  /** A backend that is not forced always has finalized <= safe <= latest. */
  lemma {:induction false} TagsStayOrdered(states: seq<BackendState>, updates: seq<Update>, times: seq<int>, banPeriod: int, i: nat)
    requires TagRun(states, updates, times, false, banPeriod) && i < |states|
    ensures TagsOrdered(states[i])
    decreases i
  {
    if i > 0 {
      TagsStayOrdered(states, updates, times, banPeriod, i - 1);
      assert Moves(updates[i - 1], states[i - 1], states[i], false, times[i - 1], banPeriod);
    }
  }

  /** Its safe and finalized tags never decrease while no ban falls in between. */
  lemma {:induction false} TagsNeverDecrease(states: seq<BackendState>, updates: seq<Update>, times: seq<int>, banPeriod: int, i: nat, j: nat)
    requires TagRun(states, updates, times, false, banPeriod) && i <= j < |states|
    requires Banned !in updates[i..j]
    ensures states[i].safe <= states[j].safe && states[i].finalized <= states[j].finalized
    decreases j
  {
    if i < j {
      assert updates[i..j] == updates[i..j - 1] + [updates[j - 1]];
      TagsNeverDecrease(states, updates, times, banPeriod, i, j - 1);
      assert Moves(updates[j - 1], states[j - 1], states[j], false, times[j - 1], banPeriod);
    }
  }

  // ------------------------------------------------------------------ agreement

  /** eth_getBlockByNumber: the hash of the backend's block at the height; None where the call fails. */
  type Chains = (nat, nat) -> Option<string>

  /** The candidates that answer all give the same hash. */
  ghost predicate Agreed(chains: Chains, members: set<nat>, height: nat) {
    forall a, b :: a in members && b in members && chains(a, height).Some? && chains(b, height).Some? ==>
      chains(a, height) == chains(b, height)
  }

  ghost predicate HighestAgreed(chains: Chains, members: set<nat>, top: nat, height: nat) {
    height <= top && Agreed(chains, members, height) && forall h :: height < h <= top ==> !Agreed(chains, members, h)
  }

  /** The walk back's result does not depend on the order in which candidates are asked. */
  lemma HighestAgreedUnique(chains: Chains, members: set<nat>, top: nat, h: nat, h': nat)
    requires HighestAgreed(chains, members, top, h) && HighestAgreed(chains, members, top, h')
    ensures h == h'
  {
  }

  function TagsOf(order: seq<nat>, tag: nat -> nat): (tags: seq<nat>)
    ensures |tags| == |order| && forall i :: 0 <= i < |order| ==> tags[i] == tag(order[i])
  {
    seq(|order|, i requires 0 <= i < |order| => tag(order[i]))
  }

  function LatestOf(states: map<nat, BackendState>): nat -> nat { (b: nat) => if b in states then states[b].latest else 0 }
  function SafeOf(states: map<nat, BackendState>): nat -> nat { (b: nat) => if b in states then states[b].safe else 0 }
  function FinalizedOf(states: map<nat, BackendState>): nat -> nat { (b: nat) => if b in states then states[b].finalized else 0 }

  /** The order in which a map was gone through: every key once. */
  ghost predicate Lists(order: seq<nat>, keys: set<nat>) {
    && (forall b :: b in order <==> b in keys)
    && (forall i, j :: 0 <= i < j < |order| ==> order[i] != order[j])
  }

  lemma EmptyOrder(order: seq<nat>)
    requires Lists(order, {})
    ensures order == []
  {
    if order != [] {
      HeadListed(order);
    }
  }

  lemma NothingLowest(order: seq<nat>, candidates: map<nat, BackendState>, tag: nat -> nat)
    requires candidates == map[] && Lists(order, candidates.Keys)
    ensures Earliest(TagsOf(order, tag)) == 0
  {
    assert candidates.Keys == {};
    EmptyOrder(order);
  }

  lemma HeadListed(order: seq<nat>)
    requires order != []
    ensures order[0] in order
  {
  }

  lemma ListsNext(order: seq<nat>, keys: set<nat>, be: nat)
    requires Lists(order, keys) && be !in keys
    ensures Lists(order + [be], keys + {be})
  {
    var next := order + [be];
    assert forall i :: 0 <= i < |order| ==> next[i] == order[i] && order[i] in order;
    assert next[|order|] == be;
  }

  /** The lowest tag of the candidates in this order; the minimum if no candidate has a zero tag. */
  lemma LowestIsMinimum(order: seq<nat>, keys: set<nat>, tag: nat -> nat)
    requires Lists(order, keys) && keys != {} && forall b :: b in keys ==> tag(b) > 0
    ensures (forall b :: b in keys ==> Earliest(TagsOf(order, tag)) <= tag(b))
    ensures exists b :: b in keys && tag(b) == Earliest(TagsOf(order, tag))
  {
    var tags := TagsOf(order, tag);
    EarliestMeaning(tags);
    forall i | 0 <= i < |order|
      ensures order[i] in keys && tags[i] > 0
    {
      assert order[i] in order;
    }
    var b0 :| b0 in keys;
    assert b0 in order;
    assert tags[0..] == tags;
    forall b | b in keys
      ensures Earliest(tags) <= tag(b)
    {
      var i :| 0 <= i < |order| && order[i] == b;
      assert tags[i] == tag(b);
    }
    var i :| 0 <= i < |tags| && tags[i] == Earliest(tags);
    assert order[i] in keys && tag(order[i]) == Earliest(tags);
  }

  /** A group of backends with ordered, non-zero tags has ordered lowest tags. */
  lemma GroupTagsOrdered(order: seq<nat>, states: map<nat, BackendState>)
    requires Lists(order, states.Keys)
    requires forall b :: b in states ==> TagsOrdered(states[b]) && states[b].finalized > 0
    ensures Earliest(TagsOf(order, FinalizedOf(states))) <= Earliest(TagsOf(order, SafeOf(states))) <= Earliest(TagsOf(order, LatestOf(states)))
  {
    if states.Keys == {} {
      EmptyOrder(order);
      assert TagsOf(order, FinalizedOf(states)) == TagsOf(order, SafeOf(states)) == TagsOf(order, LatestOf(states)) == [];
    } else {
      LowestIsMinimum(order, states.Keys, FinalizedOf(states));
      LowestIsMinimum(order, states.Keys, SafeOf(states));
      LowestIsMinimum(order, states.Keys, LatestOf(states));
    }
  }

  lemma TagsOfNext(order: seq<nat>, be: nat, tag: nat -> nat)
    ensures var t := Earliest(TagsOf(order, tag));
            Earliest(TagsOf(order + [be], tag)) == if t == 0 || t > tag(be) then tag(be) else t
  {
    assert TagsOf(order + [be], tag) == TagsOf(order, tag) + [tag(be)];
    EarliestStep(TagsOf(order, tag), tag(be));
  }

  // ------------------------------------------------------------------ the order of the lowest tags

  /** One candidate's lower tag is zero and its upper one is not, and some lower tag is above some non-zero
      upper one. */
  ghost predicate Crossed(keys: set<nat>, lower: nat -> nat, upper: nat -> nat) {
    exists a, z, b :: a in keys && z in keys && b in keys && Crossing(lower, upper, a, z, b)
  }

  predicate Crossing(lower: nat -> nat, upper: nat -> nat, a: nat, z: nat, b: nat) {
    0 < upper(a) < lower(b) && lower(z) == 0 < upper(z)
  }

  /** Unless tags are crossed, the lowest lower tag is at most the lowest upper one in every order. */
  lemma {:induction false} UncrossedLowest(order: seq<nat>, lower: nat -> nat, upper: nat -> nat)
    requires forall b :: b in order ==> lower(b) <= upper(b)
    requires forall a, z, b :: a in order && z in order && b in order ==> !Crossing(lower, upper, a, z, b)
    ensures Earliest(TagsOf(order, lower)) <= Earliest(TagsOf(order, upper))
    decreases |order|
  {
    hide Earliest;
    if order == [] {
      assert TagsOf(order, lower) == TagsOf(order, upper);
    } else {
      var n := |order| - 1;
      var before, last := order[..n], order[n];
      UncrossedLowest(before, lower, upper);
      assert before + [last] == order;
      TagsOfNext(before, last, lower);
      TagsOfNext(before, last, upper);
      if Earliest(TagsOf(before, lower)) == 0 < Earliest(TagsOf(before, upper)) {
        LowestZero(before, lower, upper);
        var z := before[n - 1];
        var a :| a in before && upper(a) == Earliest(TagsOf(before, upper));
        assert a in order && z in order && last in order;
        assert !Crossing(lower, upper, a, z, last);
      }
    }
  }

  /** The candidate gone through last has the zero lower tag, and some candidate the lowest upper one. */
  lemma LowestZero(order: seq<nat>, lower: nat -> nat, upper: nat -> nat)
    requires Earliest(TagsOf(order, lower)) == 0 < Earliest(TagsOf(order, upper))
    ensures order != [] && var z := order[|order| - 1]; z in order && lower(z) == 0 < upper(z)
    ensures exists a :: a in order && upper(a) == Earliest(TagsOf(order, upper))
  {
    var lows, ups := TagsOf(order, lower), TagsOf(order, upper);
    EarliestMeaning(lows);
    EarliestMeaning(ups);
    var i :| 0 <= i < |ups| && ups[i] == Earliest(ups);
    assert order[i] in order;
  }

  /** If they are crossed, it is above it in some order. */
  lemma CrossedLowest(keys: set<nat>, lower: nat -> nat, upper: nat -> nat) returns (order: seq<nat>)
    requires (forall b :: b in keys ==> lower(b) <= upper(b)) && Crossed(keys, lower, upper)
    ensures Lists(order, keys) && Earliest(TagsOf(order, lower)) > Earliest(TagsOf(order, upper))
  {
    hide Earliest, Lists, TagsOf;
    var a, z, b :| a in keys && z in keys && b in keys && Crossing(lower, upper, a, z, b);
    order := SomeOrder(keys - {a, z, b});
    TagsOfNext(order, a, lower);
    TagsOfNext(order, a, upper);
    ListsNext(order, keys - {a, z, b}, a);
    order := order + [a];
    assert keys - {a, z, b} + {a} == if z == a then keys - {b} else keys - {z, b};
    if z != a {
      TagsOfNext(order, z, lower);
      TagsOfNext(order, z, upper);
      ListsNext(order, keys - {z, b}, z);
      order := order + [z];
      assert keys - {z, b} + {z} == keys - {b};
    }
    TagsOfNext(order, b, lower);
    TagsOfNext(order, b, upper);
    ListsNext(order, keys - {b}, b);
    order := order + [b];
    assert keys - {b} + {b} == keys;
  }

  lemma {:induction false} SomeOrder(keys: set<nat>) returns (order: seq<nat>)
    ensures Lists(order, keys)
    decreases |keys|
  {
    order := [];
    if keys != {} {
      var be :| be in keys;
      order := SomeOrder(keys - {be});
      ListsNext(order, keys - {be}, be);
      order := order + [be];
      assert keys - {be} + {be} == keys;
    }
  }

  /** The consensus block does not depend on the order either: the same candidates, all with latest blocks
      above zero, give the same lowest latest block and the same highest agreed one below it. */
  lemma SameConsensus(candidates: map<nat, BackendState>, chains: Chains, order: seq<nat>, order': seq<nat>, block: nat, block': nat)
    requires Lists(order, candidates.Keys) && Lists(order', candidates.Keys) && candidates != map[]
    requires forall b :: b in candidates ==> candidates[b].latest > 0
    requires HighestAgreed(chains, candidates.Keys, Earliest(TagsOf(order, LatestOf(candidates))), block)
    requires HighestAgreed(chains, candidates.Keys, Earliest(TagsOf(order', LatestOf(candidates))), block')
    ensures Earliest(TagsOf(order, LatestOf(candidates))) == Earliest(TagsOf(order', LatestOf(candidates))) && block == block'
  {
    hide Lists, TagsOf, Agreed;
    LowestIsMinimum(order, candidates.Keys, LatestOf(candidates));
    LowestIsMinimum(order', candidates.Keys, LatestOf(candidates));
    HighestAgreedUnique(chains, candidates.Keys, Earliest(TagsOf(order, LatestOf(candidates))), block, block');
  }

  class ConsensusPoller {
    const backends: map<nat, Backend>
    const minPeerCount: u64
    const maxUpdateThreshold: int
    const maxBlockLag: u64
    const banPeriod: int
    var backendState: map<nat, BackendState>
    // the tracker
    var latestBlock: u64
    var safeBlock: u64
    var finalizedBlock: u64
    var consensusGroup: set<nat>

    /** Every backend has a state, and the tags of those that are not forced are in order. */
    ghost predicate Ok()
      reads this`backendState
    {
      backendState.Keys == backends.Keys && forall b :: b in backends ==> TagsOk(b)
    }

    ghost predicate TagsOk(be: nat)
      reads this`backendState
      requires be in backends && be in backendState
    {
      backends[be].forcedCandidate || TagsOrdered(backendState[be])
    }

    constructor (backends: map<nat, Backend>, minPeerCount: u64, maxUpdateThreshold: int, maxBlockLag: u64, banPeriod: int)
      ensures Ok() && this.backends == backends && this.maxBlockLag == maxBlockLag && this.banPeriod == banPeriod
      ensures this.minPeerCount == minPeerCount && this.maxUpdateThreshold == maxUpdateThreshold
      ensures forall b :: b in backends ==> backendState[b] == NEW_STATE
    {
      this.backends, this.minPeerCount, this.maxUpdateThreshold := backends, minPeerCount, maxUpdateThreshold;
      this.maxBlockLag, this.banPeriod := maxBlockLag, banPeriod;
      backendState := map b | b in backends :: NEW_STATE;
      latestBlock, safeBlock, finalizedBlock, consensusGroup := 0, 0, 0, {};
    }

    /** Bans a backend. With its tags at zero whatever it reports after the ban is in order. */
    method Ban(be: nat, now: int)
      requires backendState.Keys == backends.Keys && be in backends && forall b :: b in backends && b != be ==> TagsOk(b)
      modifies this`backendState
      ensures Ok()
      ensures backendState == if backends[be].forcedCandidate then old(backendState)
                              else old(backendState)[be := old(backendState[be]).(bannedUntil := now + banPeriod, latest := 0, safe := 0, finalized := 0)]
    {
      if backends[be].forcedCandidate {
        return;
      }
      backendState := backendState[be := backendState[be].(bannedUntil := now + banPeriod, latest := 0, safe := 0, finalized := 0)];
    }

    /** Refreshes one backend's state with what it reports; failed calls report zeros. A backend that is
        unhealthy, or whose tags are out of order or went back, is banned. */
    method UpdateBackend(be: nat, now: int, healthy: bool, peerCount: u64, inSync: bool,
                         latest: u64, latestHash: string, safe: u64, finalized: u64)
      returns (ghost update: Update)
      requires Ok() && be in backends
      modifies this`backendState
      ensures Ok() && backendState == old(backendState)[be := backendState[be]]
      ensures Moves(update, old(backendState[be]), backendState[be], backends[be].forcedCandidate, now, banPeriod)
      ensures var bs, forced := old(backendState[be]), backends[be].forcedCandidate;
              var expected := CheckExpectedBlockTags(latest, bs.safe, safe, bs.finalized, finalized);
              && update == (if IsBanned(bs, now) then Skipped else if forced || (healthy && expected) then Taken else Banned)
              && (update == Taken ==>
                    backendState[be] == BackendState(latest, latestHash, safe, finalized, peerCount, inSync, now, bs.bannedUntil))
    {
      var bs := backendState[be];
      if IsBanned(bs, now) {
        return Skipped;
      }
      update := Taken;
      // unhealthy: no news until the ban is over
      if !healthy && !backends[be].forcedCandidate {
        Ban(be, now);
        return Banned;
      }
      backendState := backendState[be := BackendState(latest, latestHash, safe, finalized, peerCount, inSync, now, bs.bannedUntil)];
      if !CheckExpectedBlockTags(latest, bs.safe, safe, bs.finalized, finalized) && !backends[be].forcedCandidate {
        Ban(be, now);
        update := Banned;
      }
    }

    /** A first report at time 1 by a healthy backend that is in sync. */
    method Report(be: nat, latest: u64, safe: u64, finalized: u64)
      requires Ok() && be in backends && !backends[be].forcedCandidate && backendState[be] == NEW_STATE
      requires finalized <= safe <= latest
      modifies this`backendState
      ensures Ok() && backendState == old(backendState)[be := BackendState(latest, "", safe, finalized, 0, true, 1, 0)]
    {
      var _ := UpdateBackend(be, 1, true, 0, true, latest, "", safe, finalized);
    }

    predicate Serving(be: nat, now: int, healthy: nat -> bool)
      reads this`backendState
      requires be in backends && be in backendState
    {
      var s := backendState[be];
      || backends[be].forcedCandidate
      || (!IsBanned(s, now) && healthy(be) && (backends[be].skipPeerCountCheck || s.peerCount >= minPeerCount)
          && s.inSync && s.lastUpdate + maxUpdateThreshold >= now)
    }

    /** Serving backends, none more than the lag behind another. */
    ghost predicate AreCandidates(candidates: map<nat, BackendState>, now: int, healthy: nat -> bool)
      requires Ok()
      reads this`backendState
    {
      && (forall be :: be in candidates ==> be in backends && candidates[be] == backendState[be] && Serving(be, now, healthy))
      && (forall a, b :: a in candidates && b in candidates ==> candidates[a].latest - candidates[b].latest <= maxBlockLag)
    }

    /** The serving backends that do not lag behind the highest of them. */
    method GetConsensusCandidates(now: int, healthy: nat -> bool) returns (candidates: map<nat, BackendState>)
      requires Ok()
      ensures AreCandidates(candidates, now, healthy)
      ensures forall be :: be in backends && Serving(be, now, healthy) && be !in candidates ==>
        exists a :: a in candidates && candidates[a].latest - backendState[be].latest > maxBlockLag
    {
      var serving := map be | be in backends && Serving(be, now, healthy) :: backendState[be];
      // lag is measured from the highest of the serving backends
      var highest: u64 := 0;
      var left := serving.Keys;
      while left != {}
        invariant left <= serving.Keys
        invariant forall be :: be in serving && be !in left ==> serving[be].latest <= highest
        invariant highest == 0 || exists be :: be in serving && serving[be].latest == highest
        decreases |left|
      {
        var be :| be in left;
        left := left - {be};
        if serving[be].latest > highest {
          highest := serving[be].latest;
        }
      }
      // the highest one itself always stays
      candidates := map be | be in serving && highest - serving[be].latest <= maxBlockLag :: serving[be];
      forall be | be in serving && be !in candidates
        ensures exists a :: a in candidates && candidates[a].latest - backendState[be].latest > maxBlockLag
      {
        var a :| a in serving && serving[a].latest == highest;
        assert a in candidates;
      }
    }

    /** The lowest tags over the candidates, gone through in any order, and the hash that goes with the
        lowest latest block. */
    method LowestTags(candidates: map<nat, BackendState>)
      returns (latest: u64, latestHash: string, safe: u64, finalized: u64, ghost order: seq<nat>)
      ensures Lists(order, candidates.Keys)
      ensures latest == Earliest(TagsOf(order, LatestOf(candidates)))
      ensures safe == Earliest(TagsOf(order, SafeOf(candidates)))
      ensures finalized == Earliest(TagsOf(order, FinalizedOf(candidates)))
      ensures candidates != map[] ==> exists b :: b in candidates && candidates[b].latest == latest && candidates[b].latestHash == latestHash
    {
      hide Lists, LowestSoFar, Earliest, TagsOf, LatestOf, SafeOf, FinalizedOf;
      latest, latestHash, safe, finalized, order := 0, "", 0, 0, [];
      var left := candidates.Keys;
      ghost var seen: set<nat>, low: nat := {}, 0;
      NothingListed(candidates);
      while left != {}
        invariant seen + left == candidates.Keys && seen !! left
        invariant LowestSoFar(candidates, seen, order, latest, safe, finalized)
        invariant if seen == {} then latest == 0 else low in candidates && candidates[low].latest == latest && candidates[low].latestHash == latestHash
        decreases |left|
      {
        var be :| be in left;
        left := left - {be};
        var bs := candidates[be];
        LowestNext(candidates, seen, order, latest, safe, finalized, be);
        seen := seen + {be};
        order := order + [be];
        if latest == 0 || bs.latest < latest {
          low := be;
        }
        latest, latestHash, safe, finalized := LowerTags(bs, latest, latestHash, safe, finalized);
      }
      assert seen == candidates.Keys;
      LowestTagsAre(candidates, seen, order, latest, safe, finalized);
    }

    lemma LowestTagsAre(candidates: map<nat, BackendState>, seen: set<nat>, order: seq<nat>, latest: nat, safe: nat, finalized: nat)
      requires LowestSoFar(candidates, seen, order, latest, safe, finalized)
      ensures Lists(order, seen)
      ensures latest == Earliest(TagsOf(order, LatestOf(candidates)))
      ensures safe == Earliest(TagsOf(order, SafeOf(candidates)))
      ensures finalized == Earliest(TagsOf(order, FinalizedOf(candidates)))
    {
    }

    /** The body of the loop over the candidates. */
    method LowerTags(bs: BackendState, latest: u64, latestHash: string, safe: u64, finalized: u64)
      returns (latest': u64, latestHash': string, safe': u64, finalized': u64)
      ensures latest' == Lower(latest, bs.latest) && safe' == Lower(safe, bs.safe) && finalized' == Lower(finalized, bs.finalized)
      ensures latestHash' == if latest == 0 || bs.latest < latest then bs.latestHash else latestHash
    {
      latest', latestHash', safe', finalized' := latest, latestHash, safe, finalized;
      if latest == 0 || bs.latest < latest {
        latest', latestHash' := bs.latest, bs.latestHash;
      }
      if finalized == 0 || bs.finalized < finalized {
        finalized' := bs.finalized;
      }
      if safe == 0 || bs.safe < safe {
        safe' := bs.safe;
      }
    }

    ghost predicate LowestSoFar(candidates: map<nat, BackendState>, seen: set<nat>, order: seq<nat>, latest: nat, safe: nat, finalized: nat) {
      && Lists(order, seen)
      && latest == Earliest(TagsOf(order, LatestOf(candidates)))
      && safe == Earliest(TagsOf(order, SafeOf(candidates)))
      && finalized == Earliest(TagsOf(order, FinalizedOf(candidates)))
    }

    lemma NothingListed(candidates: map<nat, BackendState>)
      ensures LowestSoFar(candidates, {}, [], 0, 0, 0)
    {
    }

    function Lower(kept: nat, x: nat): nat {
      if kept == 0 || x < kept then x else kept
    }

    lemma LowestNext(candidates: map<nat, BackendState>, seen: set<nat>, order: seq<nat>, latest: nat, safe: nat, finalized: nat, be: nat)
      requires LowestSoFar(candidates, seen, order, latest, safe, finalized) && be in candidates && be !in seen
      ensures var s := candidates[be];
              LowestSoFar(candidates, seen + {be}, order + [be], Lower(latest, s.latest), Lower(safe, s.safe), Lower(finalized, s.finalized))
    {
      hide Earliest, TagsOf, Lists;
      ListsNext(order, seen, be);
      TagsOfNext(order, be, LatestOf(candidates));
      TagsOfNext(order, be, SafeOf(candidates));
      TagsOfNext(order, be, FinalizedOf(candidates));
    }

    /** One round of the walk back: compare every candidate's hash at the height with the proposed one, or,
        if none is proposed, with the first that answers. A candidate whose call fails is skipped. */
    method AllAgree(members: set<nat>, chains: Chains, height: nat, hash: string) returns (agreed: bool)
      requires forall b: nat, h: nat :: chains(b, h) != Some("")
      ensures hash == "" ==> (agreed <==> Agreed(chains, members, height))
      ensures hash != "" ==> (agreed <==> forall b :: b in members && chains(b, height).Some? ==> chains(b, height) == Some(hash))
    {
      var proposedHash := hash;
      var left := members;
      while left != {}
        invariant left <= members
        invariant hash != "" ==> proposedHash == hash
        invariant forall b :: b in members && b !in left && chains(b, height).Some? ==> chains(b, height) == Some(proposedHash)
        invariant hash == "" && proposedHash != "" ==> exists b :: b in members && chains(b, height) == Some(proposedHash)
        decreases |left|
      {
        var be :| be in left;
        left := left - {be};
        var actual := chains(be, height);
        if actual.Some? {
          if proposedHash == "" {
            proposedHash := actual.value;
          }
          if actual.value != proposedHash {
            return false;
          }
        }
      }
      agreed := true;
    }

    /** Walks back from the lowest latest block until all candidates agree. The result is the highest agreed
        block; broken is set exactly if it is below both the start and the current consensus block. */
    method WalkBack(members: set<nat>, chains: Chains, lowest: u64, lowestHash: string, current: u64)
      returns (proposed: u64, broken: bool)
      requires forall b: nat, h: nat :: chains(b, h) != Some("")
      requires Agreed(chains, members, 0)
      requires exists b :: b in members && chains(b, lowest) == Some(lowestHash)
      ensures HighestAgreed(chains, members, lowest, proposed)
      ensures broken <==> proposed < lowest && proposed < current
    {
      proposed, broken := lowest, false;
      var proposedHash := lowestHash;
      var hasConsensus := false;
      while !hasConsensus
        invariant proposed <= lowest
        invariant forall h :: proposed < h <= lowest ==> !Agreed(chains, members, h)
        invariant proposedHash == "" || (proposed == lowest && proposedHash == lowestHash)
        invariant broken <==> proposed < lowest && proposed < current
        invariant hasConsensus ==> Agreed(chains, members, proposed)
        decreases !hasConsensus, proposed
      {
        var allAgreed := AllAgree(members, chains, proposed, proposedHash);
        assert allAgreed <==> Agreed(chains, members, proposed);
        if allAgreed {
          hasConsensus := true;
        } else {
          if current >= proposed {
            broken := true;
          }
          // no hash is proposed from here on: the first answer decides
          proposed := proposed - 1;
          proposedHash := "";
        }
      }
    }

    /** The lowest tags of candidates that are not forced. */
    lemma LowestInOrder(candidates: map<nat, BackendState>, order: seq<nat>)
      requires Ok() && Lists(order, candidates.Keys)
      requires forall b :: b in candidates ==> b in backends && !backends[b].forcedCandidate && candidates[b] == backendState[b]
      ensures !Crossed(candidates.Keys, FinalizedOf(candidates), SafeOf(candidates)) ==>
        Earliest(TagsOf(order, FinalizedOf(candidates))) <= Earliest(TagsOf(order, SafeOf(candidates)))
      ensures !Crossed(candidates.Keys, SafeOf(candidates), LatestOf(candidates)) ==>
        Earliest(TagsOf(order, SafeOf(candidates))) <= Earliest(TagsOf(order, LatestOf(candidates)))
    {
      hide Earliest, TagsOf, Crossing;
      assert forall b :: b in order ==> TagsOk(b);
      if !Crossed(candidates.Keys, FinalizedOf(candidates), SafeOf(candidates)) {
        UncrossedLowest(order, FinalizedOf(candidates), SafeOf(candidates));
      }
      if !Crossed(candidates.Keys, SafeOf(candidates), LatestOf(candidates)) {
        UncrossedLowest(order, SafeOf(candidates), LatestOf(candidates));
      }
    }

    /** The candidates agree on the genesis block, and one of them serves the lowest latest block. */
    lemma WalkStarts(candidates: map<nat, BackendState>, now: int, healthy: nat -> bool, chains: Chains, lowest: nat, lowestHash: string)
      requires Ok() && AreCandidates(candidates, now, healthy)
      requires forall b :: b in backends && Serving(b, now, healthy) && backendState[b].latest > 0 ==>
        chains(b, backendState[b].latest) == Some(backendState[b].latestHash)
      requires forall a, b :: a in backends && b in backends ==> chains(a, 0) == chains(b, 0)
      requires lowest > 0 && exists b :: b in candidates && candidates[b].latest == lowest && candidates[b].latestHash == lowestHash
      ensures Agreed(chains, candidates.Keys, 0)
      ensures exists b :: b in candidates.Keys && chains(b, lowest) == Some(lowestHash)
    {
      hide Serving;
      var b :| b in candidates && candidates[b].latest == lowest && candidates[b].latestHash == lowestHash;
      assert b in candidates.Keys && chains(b, lowest) == Some(lowestHash);
    }

    /** The lowest tags published are in order, unless there are forced candidates or crossed tags. */
    ghost predicate PublishedInOrder(candidates: map<nat, BackendState>, order: seq<nat>) {
      (forall b :: b in candidates ==> b in backends && !backends[b].forcedCandidate) ==>
        && (Crossed(candidates.Keys, FinalizedOf(candidates), SafeOf(candidates))
            || Earliest(TagsOf(order, FinalizedOf(candidates))) <= Earliest(TagsOf(order, SafeOf(candidates))))
        && (Crossed(candidates.Keys, SafeOf(candidates), LatestOf(candidates))
            || Earliest(TagsOf(order, SafeOf(candidates))) <= Earliest(TagsOf(order, LatestOf(candidates))))
    }

    lemma LowestPublished(candidates: map<nat, BackendState>, order: seq<nat>, now: int, healthy: nat -> bool)
      requires Ok() && AreCandidates(candidates, now, healthy) && Lists(order, candidates.Keys)
      ensures PublishedInOrder(candidates, order)
    {
      hide Earliest, TagsOf, Crossed, Serving, Lists;
      if forall b :: b in candidates ==> b in backends && !backends[b].forcedCandidate {
        LowestInOrder(candidates, order);
      }
    }

    /** Resolves the group consensus. With candidates that have latest blocks above zero, answer with the
        blocks they report, and agree on the genesis block, the new latest block is the highest one at or
        below the lowest latest that all of them agree on. */
    method UpdateBackendGroupConsensus(now: int, healthy: nat -> bool, chains: Chains)
      returns (broken: bool, ghost candidates: map<nat, BackendState>, ghost order: seq<nat>)
      requires Ok() && forall b: nat, h: nat :: chains(b, h) != Some("")
      requires forall b :: b in backends && Serving(b, now, healthy) && backendState[b].latest > 0 ==>
        chains(b, backendState[b].latest) == Some(backendState[b].latestHash)
      requires forall a, b :: a in backends && b in backends ==> chains(a, 0) == chains(b, 0)
      modifies this`latestBlock, this`safeBlock, this`finalizedBlock, this`consensusGroup
      ensures Ok() && consensusGroup == candidates.Keys && Lists(order, candidates.Keys)
      ensures AreCandidates(candidates, now, healthy)
      ensures safeBlock == Earliest(TagsOf(order, SafeOf(candidates))) && finalizedBlock == Earliest(TagsOf(order, FinalizedOf(candidates)))
      ensures PublishedInOrder(candidates, order)
      ensures var lowest := Earliest(TagsOf(order, LatestOf(candidates)));
              if lowest == 0 then latestBlock == 0 && !broken
              else
                && HighestAgreed(chains, candidates.Keys, lowest, latestBlock)
                && (broken <==> latestBlock < lowest && latestBlock < old(latestBlock))
    {
      hide Earliest, TagsOf, Lists, Crossed, Serving, TagsOk, AreCandidates, PublishedInOrder, Agreed, HighestAgreed;
      var currentConsensusBlockNumber := latestBlock;
      var found := GetConsensusCandidates(now, healthy);
      candidates := found;
      var lowest, lowestHash, safe, finalized;
      lowest, lowestHash, safe, finalized, order := LowestTags(found);
      LowestPublished(found, order, now, healthy);
      var proposed: u64 := lowest;
      broken := false;
      if proposed > 0 {
        if found == map[] {
          NothingLowest(order, found, LatestOf(found));
          assert false;
        }
        WalkStarts(found, now, healthy, chains, lowest, lowestHash);
        proposed, broken := WalkBack(found.Keys, chains, lowest, lowestHash, currentConsensusBlockNumber);
      }
      latestBlock, safeBlock, finalizedBlock := proposed, safe, finalized;
      consensusGroup := found.Keys;
    }
  }

  // ------------------------------------------------------------------ mixed tags

  /** Two backends that have reported once, both candidates, with whatever tags in order they reported. A
      tag whose fetch failed is reported as zero. */
  method TwoBackends(latest: u64, safe0: u64, finalized0: u64, safe1: u64, finalized1: u64)
    returns (p: ConsensusPoller, candidates: map<nat, BackendState>)
    requires finalized0 <= safe0 <= latest && finalized1 <= safe1 <= latest
    ensures p.Ok() && forall be :: be in p.backends ==> !p.backends[be].forcedCandidate
    ensures candidates == p.backendState && candidates.Keys == {0, 1}
    ensures candidates[0].latest == candidates[1].latest == latest
    ensures candidates[0].safe == safe0 && candidates[0].finalized == finalized0
    ensures candidates[1].safe == safe1 && candidates[1].finalized == finalized1
  {
    p := TwoReported(latest, safe0, finalized0, safe1, finalized1);
    candidates := p.GetConsensusCandidates(1, _ => true);
    assert p.Serving(0, 1, _ => true) && p.Serving(1, 1, _ => true);
    assert candidates == p.backendState;
  }

  method TwoReported(latest: u64, safe0: u64, finalized0: u64, safe1: u64, finalized1: u64) returns (p: ConsensusPoller)
    requires finalized0 <= safe0 <= latest && finalized1 <= safe1 <= latest
    ensures p.Ok() && p.backends == map[0 := Backend(false, true), 1 := Backend(false, true)]
    ensures p.minPeerCount == 0 && p.maxUpdateThreshold == 1 && p.maxBlockLag == 0
    ensures p.backendState == map[0 := BackendState(latest, "", safe0, finalized0, 0, true, 1, 0), 1 := BackendState(latest, "", safe1, finalized1, 0, true, 1, 0)]
  {
    p := new ConsensusPoller(map[0 := Backend(false, true), 1 := Backend(false, true)], 0, 1, 0, 1);
    p.Report(0, latest, safe0, finalized0);
    p.Report(1, latest, safe1, finalized1);
  }

  /** With mixed safe or finalized tags what is published depends on the order in which the two are gone
      through, and the finalized block can even come out above the safe one. */
  method MixedTags()
    returns (p: ConsensusPoller, candidates: map<nat, BackendState>)
    ensures p.Ok() && candidates == p.backendState && Lists([0, 1], candidates.Keys) && Lists([1, 0], candidates.Keys)
    ensures Earliest(TagsOf([0, 1], FinalizedOf(candidates))) == 5 > 3 == Earliest(TagsOf([0, 1], SafeOf(candidates)))
    ensures Earliest(TagsOf([1, 0], FinalizedOf(candidates))) == 0
  {
    hide Earliest, TagsOf, Lists;
    p, candidates := TwoBackends(10, 3, 0, 8, 5);
    TwoListed(candidates.Keys);
    TwoTags([0, 1], FinalizedOf(candidates));
    TwoTags([0, 1], SafeOf(candidates));
    TwoTags([1, 0], FinalizedOf(candidates));
  }

  method MixedSafeTags()
    returns (p: ConsensusPoller, candidates: map<nat, BackendState>)
    ensures p.Ok() && candidates == p.backendState && Lists([0, 1], candidates.Keys) && Lists([1, 0], candidates.Keys)
    ensures Earliest(TagsOf([0, 1], SafeOf(candidates))) == 8
    ensures Earliest(TagsOf([1, 0], SafeOf(candidates))) == 0
  {
    hide Earliest, TagsOf, Lists;
    p, candidates := TwoBackends(10, 0, 0, 8, 5);
    TwoListed(candidates.Keys);
    TwoTags([0, 1], SafeOf(candidates));
    TwoTags([1, 0], SafeOf(candidates));
  }

  lemma TwoListed(keys: set<nat>)
    requires keys == {0, 1}
    ensures Lists([0, 1], keys) && Lists([1, 0], keys)
  {
  }

  lemma TwoTags(order: seq<nat>, tag: nat -> nat)
    requires |order| == 2
    ensures Earliest(TagsOf(order, tag)) ==
            if tag(order[0]) == 0 || tag(order[0]) > tag(order[1]) then tag(order[1]) else tag(order[0])
  {
    assert TagsOf([], tag) == [];
    TagsOfNext([], order[0], tag);
    TagsOfNext([order[0]], order[1], tag);
    assert [] + [order[0]] == [order[0]] && [order[0]] + [order[1]] == order;
  }
}
