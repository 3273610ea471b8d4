/**
 * The realtime client: a router holding one lazily dialled publish/subscribe
 * handle per shard. Every nil check and every write of the table happen under
 * the router's mutex; the hit path re-reads the slot after unlocking, which
 * returns the same handle because a filled slot is never overwritten. So each
 * call of `getPubsubClient` is modelled as one atomic transition on an
 * immutable router value. Dialling a shard and publishing on a handle are
 * network calls; they enter as function parameters, one per call, so that
 * successive calls may see different outcomes.
 */
module RealtimeClient {
  import opened Wrappers
  import Crc32
  import Shard

  /**
   * The router: the configured `name:port` service string, the shard count,
   * and one optional handle per shard (`None` is Go's nil slot).
   */
  datatype Client<H> = Client(service: string, maxNodes: int, clients: seq<Option<H>>)
  {
    /** One slot per shard, and at least one shard. */
    predicate Valid()
    {
      maxNodes > 0 && |clients| == maxNodes
    }
  }

  /** The ways a lookup or a send fails. */
  datatype Fault<E> =
    | Err(err: E)                  // an error returned by the dial or by the publish call, as is
    | MissingPort(service: string) // the service string has no ':', so `parts[1]` is out of range (a Go runtime panic)

  /** One `getPubsubClient` call: the router afterwards, the handle or the fault, and the address dialled, if any. */
  datatype Lookup<H, E> = Lookup(client: Client<H>, result: Result<H, Fault<E>>, dialled: Option<string>)

  /** The publish request: account id, payload and topics. */
  datatype Message = Message(accountId: seq<bv8>, payload: seq<bv8>, topics: seq<string>)

  /**
   * One `Send` call: the router afterwards, the error returned (`Pass` is
   * nil), the address dialled, if any, and the handle and message published,
   * if any.
   */
  datatype Sent<H, E> = Sent(client: Client<H>, err: Outcome<Fault<E>>, dialled: Option<string>, published: Option<(H, Message)>)

  /** `NewClient`: no shard is connected yet. */
  function NewClient<H>(service: string, maxNodes: int): (c: Client<H>)
    requires maxNodes > 0
    ensures c.Valid() && c.service == service && c.maxNodes == maxNodes
    ensures forall i :: 0 <= i < |c.clients| ==> c.clients[i].None?
  {
    Client(service, maxNodes, seq(maxNodes, _ => None))
  }

  /** The shard slot that serves account `accid`. */
  function Slot<H>(c: Client<H>, accid: seq<bv8>): (no: nat)
    requires c.Valid()
    ensures no < |c.clients|
  {
    Shard.ShardIndex(accid, c.maxNodes)
  }

  /**
   * `d` is `c` with possibly more slots filled in: same configuration, same
   * number of slots, and every handle `c` holds is still in place.
   */
  ghost predicate Extends<H>(c: Client<H>, d: Client<H>)
  {
    && d.service == c.service
    && d.maxNodes == c.maxNodes
    && |d.clients| == |c.clients|
    && forall i :: 0 <= i < |c.clients| && c.clients[i].Some? ==> d.clients[i] == c.clients[i]
  }

  /**
   * `getPubsubClient(accid)`: return the cached handle of the account's shard,
   * or dial the shard, cache the new handle and return it.
   */
  function GetPubsubClient<H, E>(c: Client<H>, accid: seq<bv8>, dial: string -> Result<H, E>): (r: Lookup<H, E>)
    requires c.Valid()
    ensures r.client.Valid() && Extends(c, r.client)
    // only the account's own slot can change
    ensures forall i :: 0 <= i < |c.clients| && i != Slot(c, accid) ==> r.client.clients[i] == c.clients[i]
    // a handle returned is the handle the slot holds afterwards
    ensures r.result.Success? ==> r.client.clients[Slot(c, accid)] == Some(r.result.value)
    // a failure changes nothing
    ensures r.result.Failure? ==> r.client == c
    // cache hit: the cached handle, no dial, no change
    ensures c.clients[Slot(c, accid)].Some? ==>
      r == Lookup(c, Success(c.clients[Slot(c, accid)].value), None)
    // cache miss on a service string without a port: no dial
    ensures c.clients[Slot(c, accid)].None? && ':' !in c.service ==>
      r == Lookup(c, Failure(MissingPort(c.service)), None)
    // cache miss otherwise: one dial, at the shard's own address, whose outcome decides the result
    ensures c.clients[Slot(c, accid)].None? && ':' in c.service ==>
      var (name, port) := Shard.ParseService(c.service).value;
      var addr := Shard.Address(name, Slot(c, accid), port);
      && r.dialled == Some(addr)
      && (dial(addr).Failure? ==> r.result == Failure(Err(dial(addr).error)))
      && (dial(addr).Success? ==> r.result == Success(dial(addr).value))
  {
    var no := Slot(c, accid);
    if c.clients[no].Some? then
      Lookup(c, Success(c.clients[no].value), None)
    else
      match Shard.ParseService(c.service)
      case None => Lookup(c, Failure(MissingPort(c.service)), None)
      case Some((name, port)) =>
        var addr := Shard.Address(name, no, port);
        match dial(addr)
        case Failure(e) => Lookup(c, Failure(Err(e)), Some(addr))
        case Success(h) => Lookup(c.(clients := c.clients[no := Some(h)]), Success(h), Some(addr))
  }

  /**
   * `Send(accid, topics, payload)`: nothing at all for an empty topic list;
   * otherwise look up the account's handle and publish on it once, returning
   * the lookup's or the publish call's error unchanged.
   */
  function Send<H, E>(c: Client<H>, accid: seq<bv8>, topics: seq<string>, payload: seq<bv8>,
                      dial: string -> Result<H, E>, publish: (H, Message) -> Outcome<E>): (r: Sent<H, E>)
    requires c.Valid()
    ensures r.client.Valid() && Extends(c, r.client)
    // no topics: success, with no lookup, no dial, no publish and no change
    ensures |topics| == 0 ==> r == Sent(c, Pass, None, None)
    // otherwise the router changes exactly as the lookup changes it
    ensures |topics| > 0 ==>
      var l := GetPubsubClient(c, accid, dial);
      r.client == l.client && r.dialled == l.dialled
    // a failed lookup is returned and nothing is published
    ensures |topics| > 0 && GetPubsubClient(c, accid, dial).result.Failure? ==>
      r.err == Fail(GetPubsubClient(c, accid, dial).result.error) && r.published == None
    // a successful lookup publishes the caller's message on that handle, once, and returns its error as is
    ensures |topics| > 0 && GetPubsubClient(c, accid, dial).result.Success? ==>
      var h := GetPubsubClient(c, accid, dial).result.value;
      var m := Message(accid, payload, topics);
      && r.published == Some((h, m))
      && (publish(h, m).Pass? ==> r.err == Pass)
      && (publish(h, m).Fail? ==> r.err == Fail(Err(publish(h, m).error)))
  {
    if |topics| == 0 then
      Sent(c, Pass, None, None)
    else
      var l := GetPubsubClient(c, accid, dial);
      match l.result
      case Failure(f) => Sent(l.client, Fail(f), l.dialled, None)
      case Success(h) =>
        var m := Message(accid, payload, topics);
        var err := match publish(h, m)
          case Pass => Pass
          case Fail(e) => Fail(Err(e));
        Sent(l.client, err, l.dialled, Some((h, m)))
  }

  /**
   * The publish outcome never reaches the table: whatever the publish call
   * returns, the send leaves the router, and the address it dialled, the same.
   * A handle is kept after a publish error.
   */
  lemma PublishErrorKeepsHandle<H, E>(c: Client<H>, accid: seq<bv8>, topics: seq<string>, payload: seq<bv8>,
                                      dial: string -> Result<H, E>,
                                      publish: (H, Message) -> Outcome<E>, publish': (H, Message) -> Outcome<E>)
    requires c.Valid()
    ensures Send(c, accid, topics, payload, dial, publish).client == Send(c, accid, topics, payload, dial, publish').client
    ensures Send(c, accid, topics, payload, dial, publish).dialled == Send(c, accid, topics, payload, dial, publish').dialled
  {
  }

  /**
   * A failed dial leaves the shard unconnected, so the next lookup for any
   * account of that shard dials the same address again.
   */
  lemma DialFailureRetried<H, E>(c: Client<H>, accid: seq<bv8>, dial: string -> Result<H, E>,
                                 accid': seq<bv8>, dial': string -> Result<H, E>)
    requires c.Valid()
    requires GetPubsubClient(c, accid, dial).dialled.Some?
    requires GetPubsubClient(c, accid, dial).result.Failure?
    requires Slot(c, accid') == Slot(c, accid)
    ensures GetPubsubClient(GetPubsubClient(c, accid, dial).client, accid', dial').dialled
         == GetPubsubClient(c, accid, dial).dialled
  {
  }

  /**
   * The first non-empty send for an account on a fresh router dials the
   * account's shard at `<name>-<shard>.<name>:<port>`; when that succeeds it
   * caches the new handle, publishes the caller's message on it and returns
   * the publish call's error, and when it fails it returns the dial error and
   * leaves the router fresh.
   */
  lemma FirstSend<H, E>(service: string, maxNodes: int, accid: seq<bv8>, topics: seq<string>, payload: seq<bv8>,
                        dial: string -> Result<H, E>, publish: (H, Message) -> Outcome<E>)
    requires maxNodes > 0 && |topics| > 0 && ':' in service
    ensures
      var c := NewClient<H>(service, maxNodes);
      var no := Shard.ShardIndex(accid, maxNodes);
      var (name, port) := Shard.ParseService(service).value;
      var addr := Shard.Address(name, no, port);
      var m := Message(accid, payload, topics);
      var r := Send(c, accid, topics, payload, dial, publish);
      && r.dialled == Some(addr)
      && (dial(addr).Success? ==>
            var h := dial(addr).value;
            && r.published == Some((h, m))
            && r.client.clients[no] == Some(h)
            && (publish(h, m).Pass? ==> r.err == Pass)
            && (publish(h, m).Fail? ==> r.err == Fail(Err(publish(h, m).error))))
      && (dial(addr).Failure? ==> r.err == Fail(Err(dial(addr).error)) && r.published == None && r.client == c)
  {
    var c := NewClient<H>(service, maxNodes);
    assert c.clients[Slot(c, accid)].None?;
  }

  /**
   * The worked example: on a fresh `realtime:48883` router with 4 shards, a
   * send for account "123456789" (CRC-32 0xCBF43926, shard 2) dials
   * `realtime-2.realtime:48883`; on success it publishes the caller's message
   * on the new handle and returns the publish error as is, and on failure it
   * returns the dial error and publishes nothing.
   */
  lemma EndToEndExample<H, E>(topics: seq<string>, payload: seq<bv8>,
                              dial: string -> Result<H, E>, publish: (H, Message) -> Outcome<E>)
    requires |topics| > 0
    ensures
      var addr := "realtime-2.realtime:48883";
      var m := Message(Crc32.CheckInput, payload, topics);
      var r := Send(NewClient<H>("realtime:48883", 4), Crc32.CheckInput, topics, payload, dial, publish);
      && r.dialled == Some(addr)
      && (dial(addr).Success? ==>
            var h := dial(addr).value;
            && r.published == Some((h, m))
            && (publish(h, m).Pass? ==> r.err == Pass)
            && (publish(h, m).Fail? ==> r.err == Fail(Err(publish(h, m).error))))
      && (dial(addr).Failure? ==> r.err == Fail(Err(dial(addr).error)) && r.published == None)
  {
    Shard.ServiceExample();
    Shard.CheckInputShard();
    Shard.AddressExampleShard2();
    assert "realtime:48883"[8] == ':';
    FirstSend("realtime:48883", 4, Crc32.CheckInput, topics, payload, dial, publish);
  }
}
