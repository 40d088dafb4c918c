/** A server and a client that keeps to the protocol, over a whole connection. */
module Service {
  import opened Bytes
  import opened Ciphers
  import opened Schedules
  import opened Reading
  import opened UruCrypt
  import opened Conversation
  import opened Dialogue
  import opened ClientIo
  import opened Synchrony
  import opened Progress
  import opened Gatekeeper

  /** A client: its secret, the free fields of its connection header, and its requests. */
  datatype Caller = Caller(g: nat, b: nat, fields: seq<byte>, hello: seq<byte>, requests: seq<Request>)

  predicate CallerOk(cfg: Config, caller: Caller) {
    && ConfigOk(cfg) && 0 < cfg.n <= Pow256(KEY_SIZE)
    && |caller.fields| == 30 && |caller.hello| <= MAX_HELLO
    && forall i :: 0 <= i < |caller.requests| ==> RequestOk(caller.requests[i])
  }

  /** The keystream under the key the client derives. */
  function CallerStream(cfg: Config, caller: Caller): Cipher
    requires CallerOk(cfg, caller)
  {
    Keyed(cfg.rc4(ClientKey(caller.b, cfg.n, ModExp(caller.g, cfg.k, cfg.n), cfg.seed)), 0)
  }

  /** All the bytes of the client: its opening, then its requests, encrypted. */
  function CallerSends(cfg: Config, caller: Caller): seq<byte>
    requires CallerOk(cfg, caller)
  {
    Opening(caller.fields, caller.hello, ModExp(caller.g, caller.b, cfg.n))
      + Crypt(CallerStream(cfg, caller), EncodeAll(caller.requests))
  }

  /** How many bytes the client is to get. */
  function CallerGets(cfg: Config, caller: Caller): nat {
    9 + |RepliesTo(cfg, caller.requests)|
  }

  /**
   The server gives a client what it asked for. When the client's bytes arrive in reads that end
   between fields, with any pauses, all of them are heard, and what was sent and queued is the clear
   reply and one reply per request, in order, readable with the key the client derived. With enough
   write events behind that, and a socket that takes a byte often enough, all of it is sent.
   */
  method ServeCaller(net: Net, cfg: Config, events: seq<Dispatch>, ghost caller: Caller) returns (c: Client)
    requires CallerOk(cfg, caller) && net.incoming == CallerSends(cfg, caller)
    requires !net.down && net.sent == [] && Arrives(net, cfg, events)
    ensures c.Valid() && !c.refused && c.heard == net.incoming
    ensures var out := c.io.Outgoing();
      && |out| == CallerGets(cfg, caller) && out[..9] == [1, 9] + cfg.seed
      && Crypt(CallerStream(cfg, caller), out[9..]) == RepliesTo(cfg, caller.requests)
      && AllAnswered(cfg, caller.requests, ReadReplies(Crypt(CallerStream(cfg, caller), out[9..])))
    ensures Departs(net, cfg, events) && CallerGets(cfg, caller) <= Grants(net.writeScript) ==>
      c.io.writes == [] && c.io.net.sent == c.io.Outgoing()
  {
    hide Converse, Crypt, Gentle, Opening, Departs, Grants;
    var outcome;
    c, outcome := Serve(net, cfg, events);
    ClientGetsItsReplies(cfg, caller.g, caller.b, caller.fields, caller.hello, caller.requests);
    RepliesAreRead(cfg, caller.requests);
    AllSent(c.io);
    NothingGranted();
    assert SendingOk(c.SendingNow());
  }

  lemma NothingGranted()
    ensures Grants([]) == 0
  {
  }

  /** The script of a socket that takes up to `limit` bytes, `n` times. */
  function FullWrites(n: nat, limit: nat): seq<Event> {
    if n == 0 then [] else [Deliver(limit)] + FullWrites(n - 1, limit)
  }

  lemma {:induction false} FullWritesGrant(n: nat, limit: nat)
    requires limit > 0
    ensures Grants(FullWrites(n, limit)) == n && ShortSteps(FullWrites(n, limit), limit) == 0
    ensures Failed !in FullWrites(n, limit)
  {
    if n > 0 {
      FullWritesGrant(n - 1, limit);
      assert FullWrites(n, limit)[1..] == FullWrites(n - 1, limit);
    }
  }

  /** A connection on which every read returns all that was asked for, and every write takes all. */
  function FullNet(cfg: Config, caller: Caller): Net
    requires CallerOk(cfg, caller)
  {
    var raw, n := CallerSends(cfg, caller), CallerGets(cfg, caller);
    Net(raw, FullReads(cfg, [], raw), [], FullWrites(n, n), false)
  }

  /** Whatever a client sends, on such a connection one read event and one write event are enough. */
  lemma FullReadsServe(cfg: Config, caller: Caller)
    requires CallerOk(cfg, caller)
    ensures var net := FullNet(cfg, caller);
      && Departs(net, cfg, [Dispatch(false, true, false), Dispatch(true, false, false)])
      && CallerGets(cfg, caller) <= Grants(net.writeScript)
  {
    hide Converse, Crypt, Gentle, Opening, OnField, StructAt, ShortSteps, Grants, FullReads, Pauses, RepliesTo;
    var net, events := FullNet(cfg, caller), [Dispatch(false, true, false), Dispatch(true, false, false)];
    FullReadsArrive(cfg, caller);
    FullWritesGrant(CallerGets(cfg, caller), CallerGets(cfg, caller));
    ClientGetsItsReplies(cfg, caller.g, caller.b, caller.fields, caller.hello, caller.requests);
    TwoEvents(events);
    assert DepartsAfter(net, cfg, events, 1);
  }

  lemma TwoEvents(events: seq<Dispatch>)
    requires events == [Dispatch(false, true, false), Dispatch(true, false, false)]
    ensures Reads(events) == Writes(events) == Reads(events[..1]) == 1 && Writes(events[..1]) == 0
  {
    NoEvents(events);
    EventsOn(events, 1);
    EventsOn(events, 2);
    assert events[..2] == events;
  }

  lemma FullReadsArrive(cfg: Config, caller: Caller)
    requires CallerOk(cfg, caller)
    ensures var raw := CallerSends(cfg, caller);
      Gentle(cfg, [], raw, FullReads(cfg, [], raw)) && Pauses(FullReads(cfg, [], raw)) == 0
  {
    hide Converse, Crypt, Gentle, Opening, OnField, StructAt;
    var raw := CallerSends(cfg, caller);
    ClientGetsItsReplies(cfg, caller.g, caller.b, caller.fields, caller.hello, caller.requests);
    Silence(cfg, START);
    NothingAtHand(START);
    NothingAtHand(Converse(cfg, START, raw).conv);
    assert [] + raw == raw;
    FullReadsGentle(cfg, [], raw);
    FullReadsPause(cfg, [], raw);
  }

  lemma NothingAtHand(c: Conv)
    ensures OnField(StructAt(c.stage, Crypt(c.dec, [])), 0)
  {
    assert Crypt(c.dec, []) == [];
    AtStart(c.stage);
  }
}
