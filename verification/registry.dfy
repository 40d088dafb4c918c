/**
 The dispatcher's callback map, the server's list of clients, and the descriptors the kernel has
 open.

 A callback is an object; an event carries a pointer to it. The kernel decides which events come
 in a batch, which descriptor an accepted connection gets (any that is not open, so also one that
 was closed earlier in the batch), and whether a registration succeeds.
 */
module Registry {
  import opened Options

  /** A client, as far as the dispatcher knows it. */
  class Conn {
    const fd: int
    var polling: bool

    constructor (fd: int)
      ensures this.fd == fd && !polling
    {
      this.fd := fd;
      polling := false;
    }
  }

  /** A callback, with its place in the map and what it is bound to (nothing: the listener). */
  class EpollCb {
    const fd: int
    const target: Option<Conn>

    constructor (fd: int, target: Option<Conn>)
      ensures this.fd == fd && this.target == target
    {
      this.fd, this.target := fd, target;
    }
  }

  /** No entry was lost or changed. */
  ghost predicate Extends(a: map<int, EpollCb>, b: map<int, EpollCb>) {
    forall fd :: fd in a ==> fd in b && b[fd] == a[fd]
  }

  datatype Event = Event(cb: EpollCb, read: bool, write: bool, hup: bool)

  /** One of the first `n` events hangs up descriptor `fd`. */
  predicate HungUp(batch: seq<Event>, n: nat, fd: int)
    requires n <= |batch|
  {
    exists j :: 0 <= j < n && batch[j].hup && batch[j].cb.fd == fd
  }

  /** How many of the first `n` events are hang-ups. */
  function HangUps(batch: seq<Event>, n: nat): nat
    requires n <= |batch|
  {
    if n == 0 then 0 else HangUps(batch, n - 1) + if batch[n - 1].hup then 1 else 0
  }

  /** One of the first `n` events says that connections wait at descriptor `fd`. */
  predicate Called(batch: seq<Event>, n: nat, fd: int)
    requires n <= |batch|
  {
    exists j :: 0 <= j < n && batch[j].read && batch[j].cb.fd == fd
  }

  lemma NothingYet(batch: seq<Event>)
    ensures forall fd :: !HungUp(batch, 0, fd) && !Called(batch, 0, fd)
    ensures HangUps(batch, 0) == 0
  {
  }

  lemma NextEvent(batch: seq<Event>, n: nat)
    requires n < |batch|
    ensures HangUps(batch, n + 1) == HangUps(batch, n) + if batch[n].hup then 1 else 0
    ensures forall fd :: HungUp(batch, n + 1, fd) <==> HungUp(batch, n, fd) || (batch[n].hup && batch[n].cb.fd == fd)
    ensures forall fd :: Called(batch, n + 1, fd) <==> Called(batch, n, fd) || (batch[n].read && batch[n].cb.fd == fd)
  {
    forall fd
      ensures HungUp(batch, n + 1, fd) <==> HungUp(batch, n, fd) || (batch[n].hup && batch[n].cb.fd == fd)
    {
      if HungUp(batch, n, fd) {
        var j :| 0 <= j < n && batch[j].hup && batch[j].cb.fd == fd;
        assert batch[j].hup && j < n + 1;
      }
    }
    forall fd
      ensures Called(batch, n + 1, fd) <==> Called(batch, n, fd) || (batch[n].read && batch[n].cb.fd == fd)
    {
      if Called(batch, n, fd) {
        var j :| 0 <= j < n && batch[j].read && batch[j].cb.fd == fd;
        assert batch[j].read && j < n + 1;
      }
    }
  }

  /** What the kernel makes of an accept while connections wait: it hands one over, it cannot (out of
      descriptors, say), or the one in front was given up by its peer. */
  datatype Accepting = Given | Exhausted | Aborted

  class Server {
    var callbacks: map<int, EpollCb>
    var clients: seq<Conn>
    const listenFd: int

    // the kernel: open descriptors, connections waiting, those given up, and its free choices
    var open: set<int>
    var backlog: nat
    var lost: nat
    var tick: nat
    const accepts: nat -> Accepting
    const newFd: (nat, set<int>) -> int
    const ctlSucceeds: nat -> bool

    ghost predicate KernelOk() {
      forall t, s {:trigger newFd(t, s)} :: newFd(t, s) !in s
    }

    /** Clients are distinct, each on an open descriptor of its own. */
    ghost predicate ClientsOk()
      reads this`clients, this`open
    {
      && listenFd in open
      && (forall c :: c in clients ==> c.fd in open && c.fd != listenFd)
      && (forall i, j :: 0 <= i < j < |clients| ==> clients[i].fd != clients[j].fd)
    }

    /** Descriptor `fd` is in the map exactly if it is the listener's or that of a polling client,
        and its callback is bound to that. */
    ghost predicate EntryOk(fd: int)
      reads this`callbacks, this`clients, clients
    {
      && (fd in callbacks <==> fd == listenFd || exists c :: c in clients && c.polling && c.fd == fd)
      && (fd in callbacks ==>
            && callbacks[fd].fd == fd
            && (callbacks[fd].target == None <==> fd == listenFd)
            && (callbacks[fd].target.Some? ==>
                  var c := callbacks[fd].target.value; c in clients && c.fd == fd && c.polling))
    }

    ghost predicate Valid()
      reads this`callbacks, this`clients, this`open, clients
    {
      KernelOk() && ClientsOk() && forall fd :: EntryOk(fd)
    }

    /** A pointer to a callback that is still in the map. */
    predicate Live(cb: EpollCb)
      reads this
    {
      cb.fd in callbacks && callbacks[cb.fd] == cb
    }

    /** What the kernel may report: registered callbacks, each once, and no hang-up of the listener. */
    ghost predicate BatchOk(batch: seq<Event>)
      reads this
    {
      && (forall i :: 0 <= i < |batch| ==> Live(batch[i].cb) && (batch[i].cb.fd == listenFd ==> !batch[i].hup))
      && (forall i, j :: 0 <= i < j < |batch| ==> batch[i].cb.fd != batch[j].cb.fd)
    }

    constructor (listenFd: int, newFd: (nat, set<int>) -> int, ctlSucceeds: nat -> bool, accepts: nat -> Accepting,
                 backlog: nat)
      requires forall t, s {:trigger newFd(t, s)} :: newFd(t, s) !in s
      ensures Valid() && clients == [] && callbacks.Keys == {listenFd}
    {
      this.listenFd, this.newFd, this.ctlSucceeds, this.accepts := listenFd, newFd, ctlSucceeds, accepts;
      var cb := new EpollCb(listenFd, None);
      callbacks := map[listenFd := cb];
      clients, open := [], {listenFd};
      this.backlog, lost, tick := backlog, 0, 0;
    }

    /** Register a callback; false when the descriptor is taken or the kernel refuses. */
    method AddFd(fd: int, target: Option<Conn>) returns (ok: bool)
      modifies this`callbacks, this`tick
      ensures old(fd in callbacks) ==> !ok && callbacks == old(callbacks)
      ensures !old(fd in callbacks) ==> ok == ctlSucceeds(old(tick))
      ensures ok ==> fd in callbacks && fresh(callbacks[fd]) && callbacks == old(callbacks)[fd := callbacks[fd]]
      ensures ok ==> callbacks[fd].fd == fd && callbacks[fd].target == target
      ensures !ok ==> callbacks == old(callbacks)
    {
      if fd in callbacks {
        return false;
      }
      var cb := new EpollCb(fd, target);
      callbacks := callbacks[fd := cb];
      ok := ctlSucceeds(tick);
      tick := tick + 1;
      if !ok {
        callbacks := callbacks - {fd};
      }
    }

    /** What the map gained are new callback objects. */
    twostate predicate NewAreFresh()
      reads this
    {
      forall fd :: fd in callbacks && fd !in old(callbacks) ==> fresh(callbacks[fd])
    }

    /** Nothing waits any more, or the last accept failed for another reason. */
    predicate AcceptStopped()
      reads this
    {
      backlog == 0 || (tick > 0 && !accepts(tick - 1).Given?)
    }

    /** Accept until an accept fails, for whatever reason: connections may still wait then, and no event
        comes for them before the next one. A new descriptor never meets an entry of the map. */
    method AcceptCb(read: bool)
      requires Valid()
      modifies this
      ensures Valid() && old(clients) <= clients
      ensures Extends(old(callbacks), callbacks) && NewAreFresh()
      ensures forall c :: c in clients && c !in old(clients) ==> fresh(c)
      ensures forall c :: c in old(clients) ==> c.polling == old(c.polling)
      ensures read ==> AcceptStopped() && |clients| + backlog + lost == |old(clients)| + old(backlog + lost)
      ensures !read ==> clients == old(clients) && callbacks == old(callbacks) && Waiting()
    {
      if !read {
        return;
      }
      var ok := true;
      while ok
        invariant Valid() && old(clients) <= clients
        invariant |clients| + backlog + lost == |old(clients)| + old(backlog + lost)
        invariant Extends(old(callbacks), callbacks) && NewAreFresh()
        invariant forall c :: c in old(clients) ==> c.polling == old(c.polling)
        invariant forall c :: c in clients && c !in old(clients) ==> fresh(c)
        invariant !ok ==> AcceptStopped()
        decreases backlog, ok
      {
        ok := AcceptOne();
      }
    }

    /** The connections that wait are those that waited. */
    twostate predicate Waiting()
      reads this
    {
      backlog == old(backlog) && lost == old(lost) && tick == old(tick)
    }

    /** One accept, and the client made of it. */
    method AcceptOne() returns (ok: bool)
      requires Valid()
      modifies this
      ensures Valid() && ok == (old(backlog) > 0 && accepts(old(tick)).Given?)
      ensures Extends(old(callbacks), callbacks) && NewAreFresh()
      ensures ok ==> backlog == old(backlog) - 1 && lost == old(lost)
      ensures ok ==> |clients| == |old(clients)| + 1 && clients[..|old(clients)|] == old(clients)
      ensures ok ==> var c := clients[|old(clients)|]; fresh(c) && c.polling == ctlSucceeds(old(tick) + 1)
      ensures !ok ==> clients == old(clients) && callbacks == old(callbacks) && AcceptStopped()
      ensures !ok ==>
        lost - old(lost) == old(backlog) - backlog == if old(backlog) > 0 && accepts(old(tick)).Aborted? then 1 else 0
    {
      var now, t, fd := if backlog == 0 then Exhausted else accepts(tick), tick, newFd(tick, open);
      assert fd !in open && EntryOk(fd) && fd !in callbacks;
      tick := tick + 1;
      match now
      case Exhausted => return false;
      case Aborted =>
        backlog, lost := backlog - 1, lost + 1;
        return false;
      case Given =>
        backlog := backlog - 1;
        AddClient(fd);
        return true;
    }

    /** A client for a new descriptor. */
    method AddClient(fd: int)
      requires Valid() && fd !in open && fd !in callbacks
      modifies this`callbacks, this`clients, this`open, this`tick
      ensures Valid()
      ensures |clients| == |old(clients)| + 1 && clients[..|old(clients)|] == old(clients)
      ensures var c := clients[|old(clients)|]; fresh(c) && c.polling == ctlSucceeds(old(tick))
      ensures Extends(old(callbacks), callbacks) && NewAreFresh()
    {
      open := open + {fd};
      var c := new Conn(fd);
      var ok := AddFd(fd, Some(c));
      c.polling := ok;
      clients := clients + [c];
      assert clients[|old(clients)|] == c && clients[..|old(clients)|] == old(clients);
      assert forall d :: d in clients <==> d in old(clients) || d == c;
      assert forall d :: d in old(clients) ==> d.polling == old(d.polling);
      forall x ensures EntryOk(x) {
        assert old(EntryOk(x));
        if x == fd {
          assert c in clients;
        } else {
          assert x in callbacks ==> callbacks[x] == old(callbacks)[x];
          assert x in callbacks <==> x in old(callbacks);
        }
      }
    }

    /** The list without the client at `i`. */
    static function Without(cs: seq<Conn>, i: nat): seq<Conn>
      requires i < |cs|
    {
      cs[..i] + cs[i + 1..]
    }

    /** A hang-up: the client leaves the list, its socket is closed, then its callback goes. The
        descriptor is free again only once nothing refers to it. */
    method HangUp(cb: EpollCb)
      requires Valid() && Live(cb) && cb.fd != listenFd
      modifies this, if cb.target.Some? then {cb.target.value} else {}
      ensures Valid() && callbacks == old(callbacks) - {cb.fd} && open == old(open) - {cb.fd}
      ensures Waiting()
      ensures exists i :: 0 <= i < |old(clients)| && old(clients)[i].fd == cb.fd && clients == Without(old(clients), i)
      ensures forall c :: c in old(clients) && c.fd != cb.fd ==> c in clients
      ensures forall c :: c in clients ==> c.polling == old(c.polling)
    {
      assert EntryOk(cb.fd);
      var c := cb.target.value;
      var i := IndexOf(c);
      c.polling := false;
      clients := Without(clients, i);
      open := open - {c.fd};
      callbacks := callbacks - {cb.fd};
      WithoutMembers(old(clients), i);
      forall fd ensures EntryOk(fd) {
        assert old(EntryOk(fd));
      }
    }

    static lemma WithoutMembers(cs: seq<Conn>, i: nat)
      requires i < |cs| && forall j, k :: 0 <= j < k < |cs| ==> cs[j].fd != cs[k].fd
      ensures forall c :: c in Without(cs, i) <==> c in cs && c != cs[i]
      ensures forall c :: c in Without(cs, i) ==> c.fd != cs[i].fd
      ensures forall j, k :: 0 <= j < k < |cs| - 1 ==> Without(cs, i)[j].fd != Without(cs, i)[k].fd
    {
      var w := Without(cs, i);
      forall c | c in cs && c != cs[i] ensures c in w {
        var j :| 0 <= j < |cs| && cs[j] == c;
        assert c == if j < i then w[j] else w[j - 1];
      }
    }

    method IndexOf(c: Conn) returns (i: nat)
      requires c in clients
      ensures i < |clients| && clients[i] == c
    {
      i := 0;
      while clients[i] != c
        invariant i < |clients| && c !in clients[..i]
        decreases |clients| - i
      {
        assert c in clients[i + 1..] by { assert clients == clients[..i] + [clients[i]] + clients[i + 1..]; }
        i := i + 1;
      }
    }

    /** One event: the listener accepts what it can, a connection that hung up goes; everything else stays. */
    method HandleEvent(e: Event)
      requires Valid() && Live(e.cb) && (e.cb.fd == listenFd ==> !e.hup)
      modifies this, if e.cb.target.Some? then {e.cb.target.value} else {}
      ensures Valid() && NewAreFresh() && (e.hup ==> e.cb.fd !in callbacks)
      ensures forall fd :: fd in old(callbacks) && !(e.hup && fd == e.cb.fd) ==>
        fd in callbacks && callbacks[fd] == old(callbacks)[fd]
      ensures forall c :: c in old(clients) && !(e.hup && c.fd == e.cb.fd) ==> c in clients
      ensures forall c :: c in clients && c !in old(clients) ==> fresh(c)
      ensures |clients| + backlog + lost + (if e.hup then 1 else 0) == |old(clients)| + old(backlog + lost)
      ensures if e.read && e.cb.fd == listenFd then AcceptStopped() else Waiting()
    {
      assert EntryOk(e.cb.fd);
      match e.cb.target {
        case None => AcceptCb(e.read);
        case Some(c) =>
          // reading and writing on the connection leave the registry alone
          if e.hup {
            HangUp(e.cb);
          }
      }
    }

    /** What became of the entries, clients and waiting connections after `n` events: only what hung
        up is gone, and every connection that waited is a client, or was given up by its peer, or still
        waits; if the listener was called none does, unless the last accept failed. */
    twostate predicate Dispatched(new batch: seq<Event>, n: nat)
      requires n <= |batch|
      reads this
    {
      && (forall fd :: fd in old(callbacks) && !HungUp(batch, n, fd) ==>
            fd in callbacks && callbacks[fd] == old(callbacks)[fd])
      && (forall c :: c in old(clients) && !HungUp(batch, n, c.fd) ==> c in clients)
      && (forall c :: c in clients && c !in old(clients) ==> fresh(c))
      && |clients| + HangUps(batch, n) + backlog + lost == |old(clients)| + old(backlog + lost)
      && (Called(batch, n, listenFd) ==> AcceptStopped())
    }

    /**
     One batch of events, in any order the kernel reports them. Every callback pointer is live when
     it is used; afterwards exactly those that hung up are gone, even if their descriptors were
     given to new connections in between, and the listener, if it was called, accepted until an
     accept failed.
     */
    method Dispatch(batch: seq<Event>)
      requires Valid() && BatchOk(batch)
      modifies this, clients
      ensures Valid() && Dispatched(batch, |batch|)
      ensures forall i :: 0 <= i < |batch| ==> (Live(batch[i].cb) <==> !batch[i].hup)
    {
      hide HungUp, Called, HangUps;
      NothingYet(batch);
      var i := 0;
      while i < |batch|
        invariant 0 <= i <= |batch| && Valid() && Dispatched(batch, i)
        invariant forall j :: i <= j < |batch| ==> Live(batch[j].cb)
        invariant forall j :: 0 <= j < i ==> (Live(batch[j].cb) <==> !batch[j].hup)
      {
        NextEvent(batch, i);
        assert EntryOk(batch[i].cb.fd);
        label Before:
        HandleEvent(batch[i]);
        forall fd | fd in old(callbacks) && !HungUp(batch, i + 1, fd)
          ensures fd in callbacks && callbacks[fd] == old(callbacks)[fd]
        {
          assert !HungUp(batch, i, fd) && fd in old@Before(callbacks);
        }
        forall c | c in old(clients) && !HungUp(batch, i + 1, c.fd) ensures c in clients {
          assert !HungUp(batch, i, c.fd) && c in old@Before(clients);
        }
        assert forall c :: c in clients ==> c in old@Before(clients) || fresh(c);
        assert Called(batch, i + 1, listenFd) ==> AcceptStopped();
        i := i + 1;
      }
    }
  }
}
