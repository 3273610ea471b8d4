/**
 * Sequences of `Send` calls on one router. Every nil check and every write
 * of the connection table happen inside `getPubsubClient` under the router's
 * mutex; the hit path re-reads the slot after unlocking, which returns the
 * same handle because a filled slot is never overwritten. So every run of
 * concurrent sends acts on the table as some sequence of the atomic
 * transitions modelled here.
 */
module ClientTrace {
  import opened Wrappers
  import Shard
  import opened RealtimeClient

  /** One caller's `Send`, together with the dial and publish outcomes it meets. */
  datatype Call<!H, E> = Call(accid: seq<bv8>, topics: seq<string>, payload: seq<bv8>,
                             dial: string -> Result<H, E>, publish: (H, Message) -> Outcome<E>)

  function SendCall<H, E>(c: Client<H>, call: Call<H, E>): Sent<H, E>
    requires c.Valid()
  {
    Send(c, call.accid, call.topics, call.payload, call.dial, call.publish)
  }

  /** The router after the calls, in order: the table is only ever filled in. */
  function Run<H, E>(c: Client<H>, calls: seq<Call<H, E>>): (d: Client<H>)
    requires c.Valid()
    ensures d.Valid() && Extends(c, d)
    decreases |calls|
  {
    if |calls| == 0 then c else SendCall(Run(c, calls[..|calls| - 1]), calls[|calls| - 1]).client
  }

  /** What call `k` observes, on the router the earlier calls left. */
  function Step<H, E>(c: Client<H>, calls: seq<Call<H, E>>, k: nat): Sent<H, E>
    requires c.Valid() && k < |calls|
  {
    SendCall(Run(c, calls[..k]), calls[k])
  }

  /** The call dialled the shard of slot `i` and got a handle for it. */
  predicate FillsSlot<H, E>(c: Client<H>, call: Call<H, E>, i: nat)
    requires c.Valid()
  {
    var r := SendCall(c, call);
    r.dialled.Some? && r.published.Some? && Slot(c, call.accid) == i
  }

  /** A call dials successfully for slot `i` exactly when it turns that slot from empty to filled. */
  lemma FillsSlotExactly<H, E>(c: Client<H>, call: Call<H, E>, i: nat)
    requires c.Valid() && i < c.maxNodes
    ensures FillsSlot(c, call, i) <==> c.clients[i].None? && SendCall(c, call).client.clients[i].Some?
  {
    var r := SendCall(c, call);
    if |call.topics| > 0 {
      var l := GetPubsubClient(c, call.accid, call.dial);
      if l.result.Success? && Slot(c, call.accid) == i && c.clients[i].None? {
        assert ':' in c.service;
      }
    }
  }

  /** The router after the first `k + 1` calls is what call `k` leaves behind. */
  lemma RunStep<H, E>(c: Client<H>, calls: seq<Call<H, E>>, k: nat)
    requires c.Valid() && k < |calls|
    ensures Run(c, calls[..k + 1]) == Step(c, calls, k).client
  {
    assert calls[..k + 1][..k] == calls[..k];
    assert calls[..k + 1][k] == calls[k];
  }

  /** A later router extends every earlier one. */
  lemma {:induction false} RunMonotone<H, E>(c: Client<H>, calls: seq<Call<H, E>>, j: nat, k: nat)
    requires c.Valid() && j <= k <= |calls|
    ensures Extends(Run(c, calls[..j]), Run(c, calls[..k]))
    decreases k - j
  {
    if j < k {
      RunMonotone(c, calls, j, k - 1);
      RunStep(c, calls, k - 1);
    }
  }

  /** The number of calls that dialled successfully for slot `i`. */
  function SuccessfulDials<H, E>(c: Client<H>, calls: seq<Call<H, E>>, i: nat): nat
    requires c.Valid()
    decreases |calls|
  {
    if |calls| == 0 then 0
    else
      var n := |calls| - 1;
      SuccessfulDials(c, calls[..n], i) + (if FillsSlot(Run(c, calls[..n]), calls[n], i) then 1 else 0)
  }

  /**
   * Over any sequence of calls, slot `i` is dialled successfully once if the
   * calls fill it and never otherwise: no filled slot is dialled again.
   */
  lemma {:induction false} SuccessfulDialsExact<H, E>(c: Client<H>, calls: seq<Call<H, E>>, i: nat)
    requires c.Valid() && i < c.maxNodes
    ensures SuccessfulDials(c, calls, i) == if c.clients[i].None? && Run(c, calls).clients[i].Some? then 1 else 0
    decreases |calls|
  {
    if |calls| > 0 {
      var n := |calls| - 1;
      var s := Run(c, calls[..n]);
      SuccessfulDialsExact(c, calls[..n], i);
      FillsSlotExactly(s, calls[n], i);
    }
  }

  /** From a fresh router, every shard is dialled successfully at most once, and once exactly when it ends up connected. */
  lemma AtMostOneDialPerShard<H, E>(service: string, maxNodes: int, calls: seq<Call<H, E>>, i: nat)
    requires maxNodes > 0 && i < maxNodes
    ensures SuccessfulDials(NewClient<H>(service, maxNodes), calls, i) <= 1
    ensures SuccessfulDials(NewClient<H>(service, maxNodes), calls, i) == 1
        <==> Run(NewClient<H>(service, maxNodes), calls).clients[i].Some?
  {
    SuccessfulDialsExact(NewClient<H>(service, maxNodes), calls, i);
  }

  /** After some call obtained a handle for a shard, later calls for that shard never dial it again. */
  lemma ConnectedShardNotRedialled<H, E>(c: Client<H>, calls: seq<Call<H, E>>, j: nat, k: nat)
    requires c.Valid() && j < k < |calls|
    requires Step(c, calls, j).published.Some?
    requires Shard.ShardIndex(calls[j].accid, c.maxNodes) == Shard.ShardIndex(calls[k].accid, c.maxNodes)
    ensures Step(c, calls, k).dialled == None
    ensures |calls[k].topics| > 0 ==> Step(c, calls, k).published.Some?
    ensures |calls[k].topics| > 0 ==>
      Step(c, calls, k).published.value.0 == Step(c, calls, j).published.value.0
  {
    var i := Shard.ShardIndex(calls[j].accid, c.maxNodes);
    RunStep(c, calls, j);
    RunMonotone(c, calls, j + 1, k);
    assert Run(c, calls[..k]).clients[i] == Some(Step(c, calls, j).published.value.0);
  }

  /** All calls that publish for one shard publish on the same handle. */
  lemma SameHandlePerShard<H, E>(c: Client<H>, calls: seq<Call<H, E>>, j: nat, k: nat)
    requires c.Valid() && j < |calls| && k < |calls|
    requires Step(c, calls, j).published.Some? && Step(c, calls, k).published.Some?
    requires Shard.ShardIndex(calls[j].accid, c.maxNodes) == Shard.ShardIndex(calls[k].accid, c.maxNodes)
    ensures Step(c, calls, j).published.value.0 == Step(c, calls, k).published.value.0
  {
    if j < k {
      ConnectedShardNotRedialled(c, calls, j, k);
    } else if k < j {
      ConnectedShardNotRedialled(c, calls, k, j);
    }
  }
}
