/** The request loop of the closest-nodes lookup (src/DHTworker.cpp), its batch of requests
    (src/Packet.h) and the context that hands responses to running batches
    (src/BoteContext.cpp). Other tasks send and remove batches of their own meanwhile. */
module Lookup {
  import opened Num

  type Cid = bytes

  datatype Packet = Packet(destination: bytes, payload: bytes)

  datatype Response = Response(cid: Cid, payload: bytes)

  class PacketBatch {
    var outgoing: map<Cid, Packet>
    var incoming: seq<Response>
    var removed: nat

    constructor ()
      ensures outgoing == map[] && incoming == [] && removed == 0
    {
      outgoing, incoming, removed := map[], [], 0;
    }

    predicate Contains(cid: Cid)
      reads this
    {
      cid in outgoing
    }

    /** `remain`, before it wraps around below zero. */
    function Remain(): int
      reads this
    {
      |outgoing| + removed - |incoming|
    }

    method AddPacket(cid: Cid, p: Packet)
      modifies this`outgoing
      ensures outgoing == if cid in old(outgoing) then old(outgoing) else old(outgoing)[cid := p]
    {
      if cid !in outgoing {
        outgoing := outgoing[cid := p];
      }
    }

    method RemovePacket(cid: Cid)
      modifies this`outgoing, this`removed
      ensures outgoing == old(outgoing) - {cid}
      ensures removed == old(removed) + if cid in old(outgoing) then 1 else 0
      ensures |outgoing| + removed == |old(outgoing)| + old(removed)
    {
      if cid in outgoing {
        outgoing := outgoing - {cid};
        removed := removed + 1;
      }
    }

    method AddResponse(r: Response)
      modifies this`incoming
      ensures incoming == old(incoming) + [r]
    {
      incoming := incoming + [r];
    }
  }

  /** The first running batch that waits for this cid. */
  function Waiting(running: seq<PacketBatch>, cid: Cid): (i: nat)
    reads running
    ensures i <= |running|
    ensures i < |running| ==> running[i].Contains(cid)
    ensures forall k :: 0 <= k < i ==> !running[k].Contains(cid)
  {
    if running == [] || running[0].Contains(cid) then 0 else 1 + Waiting(running[1..], cid)
  }

  /** The list without the first occurrence of b. */
  function Without(running: seq<PacketBatch>, b: PacketBatch): seq<PacketBatch>
  {
    if running == [] then [] else if running[0] == b then running[1..] else [running[0]] + Without(running[1..], b)
  }

  class BoteContext {
    var running: seq<PacketBatch>
    var queue: seq<Packet>

    constructor ()
      ensures running == [] && queue == []
    {
      running, queue := [], [];
    }

    /** `send` of a batch: every packet not yet answered goes out, in some order. */
    method Send(batch: PacketBatch)
      modifies this
      ensures running == old(running) + [batch]
      ensures |queue| == |old(queue)| + |batch.outgoing|
      ensures queue[..|old(queue)|] == old(queue)
      ensures forall cid :: cid in batch.outgoing ==> batch.outgoing[cid] in queue[|old(queue)|..]
    {
      running := running + [batch];
      var rest := batch.outgoing;
      ghost var tail: seq<Packet> := [];
      while rest != map[]
        invariant running == old(running) + [batch]
        invariant queue == old(queue) + tail && |tail| + |rest| == |batch.outgoing|
        invariant forall cid :: cid in rest ==> cid in batch.outgoing && rest[cid] == batch.outgoing[cid]
        invariant forall cid :: cid in batch.outgoing ==> cid in rest || batch.outgoing[cid] in tail
        decreases |rest|
      {
        var cid :| cid in rest;
        queue := queue + [rest[cid]];
        tail := tail + [rest[cid]];
        rest := rest - {cid};
      }
      assert queue[|old(queue)|..] == tail;
    }

    /** `receive` */
    method Receive(r: Response) returns (ok: bool)
      modifies set b | b in running :: b`incoming
      ensures ok <==> Waiting(running, r.cid) < |running|
      ensures forall b :: b in running ==>
        b.incoming == if ok && b == running[Waiting(running, r.cid)] then old(b.incoming) + [r] else old(b.incoming)
    {
      var i := 0;
      while i < |running|
        invariant i <= Waiting(running, r.cid)
      {
        if running[i].Contains(r.cid) {
          assert running[i] in running;
          running[i].AddResponse(r);
          return true;
        }
        i := i + 1;
      }
      return false;
    }

    /** `removeBatch` */
    method RemoveBatch(batch: PacketBatch)
      modifies this`running
      ensures running == Without(old(running), batch)
    {
      var i := 0;
      while i < |running|
        invariant 0 <= i <= |running| && running == old(running) && batch !in running[..i]
      {
        if running[i] == batch {
          WithoutAfter(running[..i], running[i..], batch);
          assert running == running[..i] + running[i..];
          running := running[..i] + running[i + 1..];
          return;
        }
        i := i + 1;
      }
      WithoutAfter(running, [], batch);
      assert running + [] == running;
    }
  }

  lemma {:induction false} WithoutAfter(p: seq<PacketBatch>, rest: seq<PacketBatch>, b: PacketBatch)
    requires b !in p
    ensures Without(p + rest, b) == p + Without(rest, b)
  {
    if p == [] {
      assert p + rest == rest;
    } else {
      WithoutAfter(p[1..], rest, b);
      assert (p + rest)[1..] == p[1..] + rest;
    }
  }

  /** One occurrence goes, all others stay. */
  lemma {:induction false} WithoutCounts(running: seq<PacketBatch>, b: PacketBatch)
    ensures multiset(Without(running, b)) == multiset(running) - multiset{b}
  {
    if running != [] {
      assert running == [running[0]] + running[1..];
      WithoutCounts(running[1..], b);
    }
  }

  //
  // The lookup
  //

  datatype Request = Request(cid: Cid, node: bytes, payload: bytes)

  function Cids(requests: seq<Request>): set<Cid>
  {
    set i | 0 <= i < |requests| :: requests[i].cid
  }

  function Answered(rs: seq<Response>): set<Cid>
  {
    if rs == [] then {} else Answered(rs[..|rs| - 1]) + {rs[|rs| - 1].cid}
  }

  lemma {:induction false} AnsweredHas(rs: seq<Response>)
    ensures forall c :: c in Answered(rs) <==> exists i :: 0 <= i < |rs| && rs[i].cid == c
  {
    if rs != [] {
      var before := rs[..|rs| - 1];
      AnsweredHas(before);
      forall c
        ensures c in Answered(rs) <==> exists i :: 0 <= i < |rs| && rs[i].cid == c
      {
        if c in Answered(before) {
          var i :| 0 <= i < |before| && before[i].cid == c;
          assert rs[i].cid == c;
        }
        if i :| 0 <= i < |rs| && rs[i].cid == c {
          if i < |before| { assert before[i].cid == c; }
        }
      }
    }
  }

  /** Something that happens while the lookup waits: a packet comes in, or another task sends or
      removes a batch of its own. */
  datatype Step = Arrives(r: Response) | Sends(b: PacketBatch) | Removes(b: PacketBatch)

  /** One wait, the time the lookup has then taken, and whether the node still runs. */
  datatype Round = Round(steps: seq<Step>, duration: int, started: bool)

  const TIMEOUT: int := 120

  /** The batch against the cids it was given: what left it is counted, responses are to these
      cids only, and what left it was answered. */
  ghost predicate Accounts(batch: PacketBatch, added: set<Cid>)
    reads batch
  {
    && batch.outgoing.Keys <= added && |batch.outgoing| + batch.removed == |added|
    && Answered(batch.incoming) <= added <= batch.outgoing.Keys + Answered(batch.incoming)
  }

  /** Requests are open exactly for what is in the batch, and exactly for what was not answered. */
  ghost predicate Settled(batch: PacketBatch, active: map<Cid, bytes>, added: set<Cid>)
    reads batch
  {
    && Accounts(batch, added) && active.Keys == batch.outgoing.Keys
    && active.Keys == added - Answered(batch.incoming)
  }

  ghost predicate Owned(ctx: BoteContext, batch: PacketBatch, others: set<PacketBatch>)
    reads ctx
  {
    batch !in others && forall b :: b in ctx.running ==> b == batch || b in others
  }

  /** How often the batch is listed as running. */
  ghost function Listings(ctx: BoteContext, batch: PacketBatch): nat
    reads ctx
  {
    multiset(ctx.running)[batch]
  }

  ghost predicate Foreign(steps: seq<Step>, others: set<PacketBatch>)
  {
    forall i :: 0 <= i < |steps| ==> steps[i].Arrives? || steps[i].b in others
  }

  method Play(ctx: BoteContext, batch: PacketBatch, step: Step, ghost added: set<Cid>, ghost others: set<PacketBatch>)
    requires Accounts(batch, added) && Owned(ctx, batch, others) && (step.Arrives? || step.b in others)
    modifies ctx, batch`incoming, others
    ensures Accounts(batch, added) && Owned(ctx, batch, others)
    ensures old(batch.incoming) <= batch.incoming && Listings(ctx, batch) == old(Listings(ctx, batch))
  {
    match step
    case Arrives(r) =>
      var ok := ctx.Receive(r);
      if batch in ctx.running {
        assert batch.incoming == old(batch.incoming) || batch.incoming == old(batch.incoming) + [r];
        AnsweredMore(old(batch.incoming), r);
      }
    case Sends(b) =>
      ctx.Send(b);
    case Removes(b) =>
      WithoutCounts(ctx.running, b);
      ctx.RemoveBatch(b);
      Fewer(ctx.running, old(ctx.running));
  }

  lemma Fewer(after: seq<PacketBatch>, before: seq<PacketBatch>)
    requires multiset(after) <= multiset(before)
    ensures forall b :: b in after ==> b in before
  {
    forall b | b in after
      ensures b in before
    {
      assert b in multiset(after);
    }
  }

  lemma AnsweredMore(rs: seq<Response>, r: Response)
    ensures Answered(rs + [r]) == Answered(rs) + {r.cid}
  {
    assert (rs + [r])[..|rs|] == rs;
  }

  /** The first request of each cid. */
  function Firsts(requests: seq<Request>): (m: map<Cid, Request>)
    ensures m.Keys == Cids(requests)
  {
    if requests == [] then map[]
    else
      var before, r := requests[..|requests| - 1], requests[|requests| - 1];
      CidsMore(before, r);
      if r.cid in Firsts(before) then Firsts(before) else Firsts(before)[r.cid := r]
  }

  lemma CidsMore(requests: seq<Request>, r: Request)
    ensures forall rs :: rs == requests + [r] ==> Cids(rs) == Cids(requests) + {r.cid}
  {
    var rs := requests + [r];
    forall c | c in Cids(requests) + {r.cid}
      ensures c in Cids(rs)
    {
      if c in Cids(requests) {
        var i :| 0 <= i < |requests| && requests[i].cid == c;
        assert rs[i].cid == c;
      } else {
        assert rs[|requests|].cid == c;
      }
    }
  }

  /** The open requests and the batch hold these requests. */
  ghost predicate Holds(batch: PacketBatch, active: map<Cid, bytes>, m: map<Cid, Request>)
    reads batch
  {
    && active == (map c | c in m :: m[c].node)
    && batch.outgoing == (map c | c in m :: Packet(m[c].node, m[c].payload))
  }

  method AddRequest(batch: PacketBatch, start: map<Cid, bytes>, r: Request, ghost m: map<Cid, Request>)
    returns (active: map<Cid, bytes>)
    requires Holds(batch, start, m)
    modifies batch`outgoing
    ensures Holds(batch, active, if r.cid in m then m else m[r.cid := r])
  {
    active := start;
    if r.cid !in active {
      active := active[r.cid := r.node];
    }
    batch.AddPacket(r.cid, Packet(r.node, r.payload));
  }

  lemma StartsSettled(batch: PacketBatch, active: map<Cid, bytes>, requests: seq<Request>)
    requires Holds(batch, active, Firsts(requests)) && batch.incoming == [] && batch.removed == 0
    ensures Settled(batch, active, Cids(requests))
  {
    assert batch.outgoing.Keys == Firsts(requests).Keys == active.Keys;
    assert |batch.outgoing| == |batch.outgoing.Keys|;
    assert Answered(batch.incoming) == {};
  }

  /** The requests before the first round: of a cid drawn twice the first counts. */
  method Open(requests: seq<Request>) returns (batch: PacketBatch, active: map<Cid, bytes>)
    ensures fresh(batch) && Holds(batch, active, Firsts(requests)) && batch.incoming == [] && batch.removed == 0
    ensures Settled(batch, active, Cids(requests))
  {
    batch := new PacketBatch();
    active := map[];
    for i := 0 to |requests|
      invariant batch.incoming == [] && batch.removed == 0 && Holds(batch, active, Firsts(requests[..i]))
    {
      assert requests[..i + 1][..i] == requests[..i];
      active := AddRequest(batch, active, requests[i], Firsts(requests[..i]));
    }
    assert requests[..|requests|] == requests;
    StartsSettled(batch, active, requests);
  }

  /** Responses close the requests they answer. */
  method Close(batch: PacketBatch, start: map<Cid, bytes>, responses: seq<Response>, ghost added: set<Cid>)
    returns (active: map<Cid, bytes>)
    requires Accounts(batch, added) && start.Keys == batch.outgoing.Keys && responses == batch.incoming
    modifies batch`outgoing, batch`removed
    ensures Settled(batch, active, added)
    ensures active == start - Answered(responses)
  {
    active := CloseAll(batch, start, responses, added);
    ClosedSettled(batch, active, start, added);
  }

  method CloseAll(batch: PacketBatch, start: map<Cid, bytes>, responses: seq<Response>, ghost added: set<Cid>)
    returns (active: map<Cid, bytes>)
    requires Closing(batch, start, start, [], added)
    modifies batch`outgoing, batch`removed
    ensures Closing(batch, active, start, responses, added)
  {
    active := start;
    for i := 0 to |responses|
      invariant Closing(batch, active, start, responses[..i], added)
    {
      assert responses[..i + 1] == responses[..i] + [responses[i]];
      active := CloseOne(batch, active, start, responses[..i], responses[i], added);
    }
    assert responses[..|responses|] == responses;
  }

  lemma ClosedSettled(batch: PacketBatch, active: map<Cid, bytes>, start: map<Cid, bytes>, added: set<Cid>)
    requires Closing(batch, active, start, batch.incoming, added)
    requires start.Keys <= added && Answered(batch.incoming) <= added <= start.Keys + Answered(batch.incoming)
    ensures Settled(batch, active, added)
  {
    assert active.Keys == start.Keys - Answered(batch.incoming);
  }

  /** These responses have closed the requests they answer. */
  ghost predicate Closing(batch: PacketBatch, active: map<Cid, bytes>, start: map<Cid, bytes>, rs: seq<Response>,
                          added: set<Cid>)
    reads batch
  {
    && active == start - Answered(rs) && active.Keys == batch.outgoing.Keys
    && |batch.outgoing| + batch.removed == |added|
  }

  method CloseOne(batch: PacketBatch, before: map<Cid, bytes>, ghost start: map<Cid, bytes>, ghost rs: seq<Response>,
                  r: Response, ghost added: set<Cid>)
    returns (active: map<Cid, bytes>)
    requires Closing(batch, before, start, rs, added)
    modifies batch`outgoing, batch`removed
    ensures Closing(batch, active, start, rs + [r], added)
  {
    active := before;
    OneClosed(start, rs, r);
    if r.cid in active {
      active := active - {r.cid};
      batch.RemovePacket(r.cid);
    }
  }

  lemma OneClosed(start: map<Cid, bytes>, rs: seq<Response>, r: Response)
    ensures start - Answered(rs + [r]) == start - Answered(rs) - {r.cid}
    ensures r.cid !in start - Answered(rs) ==> start - Answered(rs + [r]) == start - Answered(rs)
    ensures (start - Answered(rs) - {r.cid}).Keys == (start - Answered(rs)).Keys - {r.cid}
  {
    AnsweredMore(rs, r);
  }

  method PlayAll(ctx: BoteContext, batch: PacketBatch, steps: seq<Step>, ghost added: set<Cid>,
                 ghost others: set<PacketBatch>)
    requires Accounts(batch, added) && Owned(ctx, batch, others) && Foreign(steps, others)
    modifies ctx, batch`incoming, others
    ensures Accounts(batch, added) && Owned(ctx, batch, others)
    ensures old(batch.incoming) <= batch.incoming && Listings(ctx, batch) == old(Listings(ctx, batch))
  {
    for i := 0 to |steps|
      invariant Accounts(batch, added) && Owned(ctx, batch, others)
      invariant old(batch.incoming) <= batch.incoming && Listings(ctx, batch) == old(Listings(ctx, batch))
    {
      Play(ctx, batch, steps[i], added, others);
    }
  }

  /** Between rounds the batch is not running, and open requests match what was answered. */
  ghost predicate Idle(ctx: BoteContext, batch: PacketBatch, active: map<Cid, bytes>, added: set<Cid>,
                       others: set<PacketBatch>)
    reads ctx, batch
  {
    Settled(batch, active, added) && Owned(ctx, batch, others) && Listings(ctx, batch) == 0
  }

  method Wait(ctx: BoteContext, batch: PacketBatch, steps: seq<Step>, ghost added: set<Cid>,
              ghost others: set<PacketBatch>)
    requires Accounts(batch, added) && Owned(ctx, batch, others) && Foreign(steps, others) && Listings(ctx, batch) == 0
    modifies ctx, batch`incoming, others
    ensures Accounts(batch, added) && Owned(ctx, batch, others) && Listings(ctx, batch) == 0
  {
    ctx.Send(batch);
    PlayAll(ctx, batch, steps, added, others);
    WithoutCounts(ctx.running, batch);
    ghost var running := ctx.running;
    ctx.RemoveBatch(batch);
    Fewer(ctx.running, running);
  }

  /** One round: send what is open, wait, and close what was answered. */
  method PlayRound(ctx: BoteContext, batch: PacketBatch, start: map<Cid, bytes>, steps: seq<Step>,
                   ghost added: set<Cid>, ghost others: set<PacketBatch>)
    returns (active: map<Cid, bytes>)
    requires Idle(ctx, batch, start, added, others) && Foreign(steps, others)
    modifies ctx, batch, others
    ensures Idle(ctx, batch, active, added, others)
  {
    Wait(ctx, batch, steps, added, others);
    var responses := batch.incoming;
    if responses == [] {
      assert Answered(responses) == {};
      return start;
    }
    active := Close(batch, start, responses, added);
  }

  predicate Stops(round: Round)
  {
    !round.started || round.duration >= TIMEOUT
  }

  /** The loop ended because nothing is open, the node stopped, or time ran out; or it is still
      waiting after all the rounds given. */
  ghost predicate Ended(active: map<Cid, bytes>, rounds: seq<Round>, played: nat)
  {
    && played <= |rounds|
    && (active == map[] || played == |rounds| || (played > 0 && Stops(rounds[played - 1])))
  }

  method PlayRounds(ctx: BoteContext, batch: PacketBatch, start: map<Cid, bytes>, rounds: seq<Round>,
                    ghost added: set<Cid>, ghost others: set<PacketBatch>)
    returns (active: map<Cid, bytes>, played: nat)
    requires Idle(ctx, batch, start, added, others) && forall i :: 0 <= i < |rounds| ==>
      Foreign(rounds[i].steps, others)
    modifies ctx, batch, others
    ensures Idle(ctx, batch, active, added, others) && Ended(active, rounds, played)
  {
    active, played := start, 0;
    var duration, started := 0, true;
    while active != map[] && started && duration < TIMEOUT && played < |rounds|
      invariant Idle(ctx, batch, active, added, others) && played <= |rounds|
      invariant if played > 0 then duration ==
        rounds[played - 1].duration && started == rounds[played - 1].started else duration == 0 && started
      decreases |rounds| - played
    {
      active := PlayRound(ctx, batch, active, rounds[played].steps, added, others);
      duration, started := rounds[played].duration, rounds[played].started;
      played := played + 1;
    }
  }

  lemma AllAnswered(batch: PacketBatch, active: map<Cid, bytes>, added: set<Cid>)
    requires Settled(batch, active, added)
    ensures active == map[] <==> Answered(batch.incoming) == added
  {
    assert active == map[] <==> active.Keys == {};
  }

  /** `closestNodesLookupTask` up to the end of its loop. Through any interleaving of responses
      and other tasks' work, requests are open exactly for the cids not answered; so when none is
      open, every cid was answered. */
  method Lookup(ctx: BoteContext, requests: seq<Request>, rounds: seq<Round>, ghost others: set<PacketBatch>)
    returns (batch: PacketBatch, active: map<Cid, bytes>, played: nat)
    requires (forall b :: b in ctx.running ==> b in others) && forall i :: 0 <= i < |rounds| ==>
      Foreign(rounds[i].steps, others)
    modifies ctx, others
    ensures fresh(batch) && Settled(batch, active, Cids(requests)) && batch !in ctx.running
    ensures Ended(active, rounds, played)
    ensures active == map[] <==> Answered(batch.incoming) == Cids(requests)
  {
    batch, active := Open(requests);
    active, played := PlayRounds(ctx, batch, active, rounds, Cids(requests), others);
    AllAnswered(batch, active, Cids(requests));
  }

  /** The count that ends a wait early is that of the open requests exactly if no cid was
      answered twice; each repeat makes it one too small. */
  lemma RemainIsOpen(batch: PacketBatch, added: set<Cid>)
    requires Accounts(batch, added)
    ensures batch.Remain() == |added - Answered(batch.incoming)| + |Answered(batch.incoming)| - |batch.incoming|
    ensures batch.Remain() == |added - Answered(batch.incoming)| <==> OnceEach(batch.incoming)
  {
    var a := Answered(batch.incoming);
    assert added == (added - a) + a;
    AnsweredCount(batch.incoming);
  }

  /** A batch that runs alone gets the responses to its cids. */
  method ReceiveAlone(ctx: BoteContext, batch: PacketBatch, r: Response)
    requires ctx.running == [batch] && batch.Contains(r.cid)
    modifies batch`incoming
    ensures batch.incoming == old(batch.incoming) + [r]
  {
    assert batch in ctx.running;
    var _ := ctx.Receive(r);
  }

  method ReceiveTimes(ctx: BoteContext, batch: PacketBatch, r: Response, n: nat)
    requires ctx.running == [batch] && batch.Contains(r.cid) && batch.incoming == [] && n > 0
    modifies batch`incoming
    ensures |batch.incoming| == n && Answered(batch.incoming) == {r.cid}
  {
    for i := 0 to n
      modifies batch`incoming
      invariant |batch.incoming| == i && Answered(batch.incoming) == if i == 0 then {} else {r.cid}
    {
      AnsweredMore(batch.incoming, r);
      ReceiveAlone(ctx, batch, r);
    }
  }

  /** One request answered as often as there are requests: the count says that nothing remains,
      while every other request is still open. */
  method RepeatedResponse(requests: seq<Request>, r: Response) returns (batch: PacketBatch)
    requires r.cid in Cids(requests)
    ensures fresh(batch) && batch.Remain() == 0
    ensures batch.outgoing.Keys == Cids(requests) && Answered(batch.incoming) == {r.cid}
  {
    var ctx := new BoteContext();
    var active;
    batch, active := Open(requests);
    OpenKeys(batch, requests);
    ctx.Send(batch);
    ReceiveTimes(ctx, batch, r, |batch.outgoing|);
  }

  lemma OpenKeys(batch: PacketBatch, requests: seq<Request>)
    requires batch.outgoing ==
      map c | c in Firsts(requests) :: Packet(Firsts(requests)[c].node, Firsts(requests)[c].payload)
    ensures batch.outgoing.Keys == Cids(requests) && |batch.outgoing| == |Cids(requests)|
  {
    assert batch.outgoing.Keys == Firsts(requests).Keys;
    assert |batch.outgoing| == |batch.outgoing.Keys|;
  }

  /** No cid was answered twice. */
  ghost predicate OnceEach(rs: seq<Response>)
  {
    forall i, j :: 0 <= i < j < |rs| ==> rs[i].cid != rs[j].cid
  }

  lemma OnceMore(rs: seq<Response>, r: Response)
    ensures OnceEach(rs + [r]) <==> OnceEach(rs) && r.cid !in Answered(rs)
  {
    var more := rs + [r];
    AnsweredHas(rs);
    assert forall i :: 0 <= i < |rs| ==> more[i] == rs[i];
    if r.cid in Answered(rs) {
      var i :| 0 <= i < |rs| && rs[i].cid == r.cid;
      assert more[i].cid == more[|rs|].cid;
    }
    if OnceEach(more) {
      forall i, j | 0 <= i < j < |rs|
        ensures rs[i].cid != rs[j].cid
      {
        assert more[i].cid != more[j].cid;
      }
    }
  }

  lemma {:induction false} AnsweredCount(rs: seq<Response>)
    ensures |Answered(rs)| <= |rs|
    ensures |Answered(rs)| == |rs| <==> OnceEach(rs)
  {
    if rs != [] {
      var before, r := rs[..|rs| - 1], rs[|rs| - 1];
      AnsweredCount(before);
      assert rs == before + [r];
      OnceMore(before, r);
      if r.cid in Answered(before) {
        assert Answered(rs) == Answered(before);
      }
    }
  }
}
