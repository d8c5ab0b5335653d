/**
  The bookkeeping of `ZincServer`, one callback per step and one clock value per step: which clients
  are connected, how many per address, how many are online, and who is rate limited.
 */
module ServerBook {
  import opened ConnectionState

  datatype Client = Client(ip: string, state: State, kickAtLogin: int, loginFinished: bool)

  datatype Limits = Limits(rateLimit: int, maxConcurrentAccount: int)

  datatype Server = Server(
    clients: map<int, Client>,
    rateLimiterData: map<string, int>,
    concurrentAccounts: map<string, int>,
    onlinePlayers: int)

  const EMPTY := Server(map[], map[], map[], 0)

  datatype Event =
    | Accept(fd: int, ip: string, now: int)
    | Disconnect(fd: int)
    | Packet(fd: int, id: int, argument: int)

  // ----- steps

  /** Whether a client that arrives at `now` keeps the rate limit of its address. */
  predicate InTime(s: Server, limits: Limits, ip: string, now: int) {
    ip in s.rateLimiterData ==> s.rateLimiterData[ip] + limits.rateLimit < now
  }

  function CountAfterAdd(s: Server, ip: string): int {
    if ip in s.concurrentAccounts then s.concurrentAccounts[ip] + 1 else 1
  }

  function AddClient(s: Server, limits: Limits, fd: int, ip: string, now: int): Server {
    if fd in s.clients then s else
      var inTime := InTime(s, limits, ip, now);
      var count := CountAfterAdd(s, ip);
      var kick := if count > limits.maxConcurrentAccount then 2 else if inTime then 0 else 1;
      Server(
        s.clients[fd := Client(ip, Handshake, kick, false)],
        if inTime then s.rateLimiterData[ip := now] else s.rateLimiterData,
        s.concurrentAccounts[ip := count],
        s.onlinePlayers)
  }

  function CountAfterRemove(accounts: map<string, int>, ip: string): map<string, int> {
    var count := if ip in accounts then accounts[ip] else 0;
    var left := if count != 0 then count - 1 else 0;
    if left == 0 then accounts - {ip} else accounts[ip := left]
  }

  function RemoveClient(s: Server, fd: int): Server {
    if fd !in s.clients then s else
      var client := s.clients[fd];
      Server(
        s.clients - {fd},
        s.rateLimiterData,
        CountAfterRemove(s.concurrentAccounts, client.ip),
        if client.loginFinished then s.onlinePlayers - 1 else s.onlinePlayers)
  }

  /** The packets that change the bookkeeping: the handshake, and the acknowledgements of login and of
      configuration. */
  function OnRead(s: Server, fd: int, id: int, argument: int): Server {
    if fd !in s.clients then s else
      var client := s.clients[fd];
      match client.state
      case Handshake =>
        if id == 0 then s.(clients := s.clients[fd := client.(state := HandshakeTarget(argument))]) else s
      case Login =>
        if id == 3 then s.(clients := s.clients[fd := client.(state := Config, loginFinished := true)],
                           onlinePlayers := s.onlinePlayers + 1) else s
      case Config =>
        if id == 3 then s.(clients := s.clients[fd := client.(state := Play)]) else s
      case _ => s
  }

  function Step(s: Server, limits: Limits, e: Event): Server {
    match e
    case Accept(fd, ip, now) => AddClient(s, limits, fd, ip, now)
    case Disconnect(fd) => RemoveClient(s, fd)
    case Packet(fd, id, argument) => OnRead(s, fd, id, argument)
  }

  /** The state after the first `n` events. */
  function After(limits: Limits, events: seq<Event>, n: nat): Server
    requires n <= |events|
  {
    if n == 0 then EMPTY else Step(After(limits, events, n - 1), limits, events[n - 1])
  }

  // ----- the invariant

  function ClientsOf(s: Server, ip: string): set<int> {
    set fd | fd in s.clients && s.clients[fd].ip == ip
  }

  function Online(s: Server): set<int> {
    set fd | fd in s.clients && s.clients[fd].loginFinished
  }

  /** The live clients of an address that are not marked as too many. */
  function Unmarked(s: Server, ip: string): set<int> {
    set fd | fd in s.clients && s.clients[fd].ip == ip && s.clients[fd].kickAtLogin != 2
  }

  /** The counter of one address. */
  ghost predicate CountExact(s: Server, ip: string) {
    if ip in s.concurrentAccounts then s.concurrentAccounts[ip] == |ClientsOf(s, ip)| > 0 else ClientsOf(s, ip) == {}
  }

  ghost predicate CountsExact(s: Server) {
    forall ip :: CountExact(s, ip)
  }

  predicate LoginMarksExact(s: Server) {
    forall fd :: fd in s.clients ==>
      (s.clients[fd].loginFinished <==> s.clients[fd].state.Config? || s.clients[fd].state.Play?)
  }

  ghost predicate CapKept(s: Server, limits: Limits) {
    forall ip :: |Unmarked(s, ip)| <= limits.maxConcurrentAccount
  }

  ghost predicate Consistent(s: Server) {
    CountsExact(s) && s.onlinePlayers == |Online(s)| && LoginMarksExact(s)
  }

  lemma ClientsAfterAdd(s: Server, t: Server, fd: int, c: Client, ip: string)
    requires fd !in s.clients && t.clients == s.clients[fd := c]
    ensures fd !in ClientsOf(s, ip)
    ensures ClientsOf(t, ip) == if ip == c.ip then ClientsOf(s, ip) + {fd} else ClientsOf(s, ip)
  {
  }

  lemma ClientsAfterRemove(s: Server, t: Server, fd: int, ip: string)
    requires fd in s.clients && t.clients == s.clients - {fd}
    ensures ip == s.clients[fd].ip ==> fd in ClientsOf(s, ip)
    ensures ClientsOf(t, ip) == if ip == s.clients[fd].ip then ClientsOf(s, ip) - {fd} else ClientsOf(s, ip)
  {
  }

  lemma AddedServer(s: Server, limits: Limits, fd: int, ip: string, now: int)
    requires fd !in s.clients
    ensures var t := AddClient(s, limits, fd, ip, now);
            && fd in t.clients && t.clients == s.clients[fd := t.clients[fd]] && t.clients[fd].ip == ip
            && !t.clients[fd].loginFinished
            && t.concurrentAccounts == s.concurrentAccounts[ip := CountAfterAdd(s, ip)]
  {
  }

  lemma AddKeepsCount(s: Server, limits: Limits, fd: int, ip: string, now: int, other: string)
    requires CountExact(s, other) && fd !in s.clients
    ensures CountExact(AddClient(s, limits, fd, ip, now), other)
  {
    hide AddClient, ClientsOf;
    var t := AddClient(s, limits, fd, ip, now);
    AddedServer(s, limits, fd, ip, now);
    ClientsAfterAdd(s, t, fd, t.clients[fd], other);
  }

  lemma AddKeepsCounts(s: Server, limits: Limits, fd: int, ip: string, now: int)
    requires CountsExact(s) && fd !in s.clients
    ensures CountsExact(AddClient(s, limits, fd, ip, now))
  {
    hide AddClient, CountExact;
    forall other ensures CountExact(AddClient(s, limits, fd, ip, now), other) {
      assert CountExact(s, other);
      AddKeepsCount(s, limits, fd, ip, now, other);
    }
  }

  lemma AddKeepsConsistent(s: Server, limits: Limits, fd: int, ip: string, now: int)
    requires Consistent(s)
    ensures Consistent(AddClient(s, limits, fd, ip, now))
  {
    hide CountsExact;
    if fd !in s.clients {
      AddKeepsCounts(s, limits, fd, ip, now);
      assert Online(AddClient(s, limits, fd, ip, now)) == Online(s);
    }
  }

  lemma WithoutOne<T>(a: set<T>, x: T)
    requires x in a
    ensures |a - {x}| == |a| - 1
    ensures |a| == 1 ==> a - {x} == {}
  {
  }

  lemma RemoveKeepsCount(s: Server, fd: int, ip: string)
    requires CountExact(s, ip) && fd in s.clients
    ensures CountExact(RemoveClient(s, fd), ip)
  {
    hide ClientsOf;
    var live := ClientsOf(s, ip);
    ClientsAfterRemove(s, RemoveClient(s, fd), fd, ip);
    if ip == s.clients[fd].ip {
      WithoutOne(live, fd);
    }
  }

  lemma RemoveKeepsConsistent(s: Server, fd: int)
    requires Consistent(s)
    ensures Consistent(RemoveClient(s, fd))
  {
    hide CountExact;
    if fd in s.clients {
      var t := RemoveClient(s, fd);
      forall ip ensures CountExact(t, ip) {
        assert CountExact(s, ip);
        RemoveKeepsCount(s, fd, ip);
      }
      assert Online(t) == if s.clients[fd].loginFinished then Online(s) - {fd} else Online(s);
    }
  }

  /** Changing one client in place, counting it as online when it becomes so. */
  function Updated(s: Server, fd: int, c: Client): Server
    requires fd in s.clients
  {
    var online := if c.loginFinished && !s.clients[fd].loginFinished then s.onlinePlayers + 1 else s.onlinePlayers;
    s.(clients := s.clients[fd := c], onlinePlayers := online)
  }

  lemma UpdateKeepsCounts(s: Server, fd: int, c: Client)
    requires CountsExact(s) && fd in s.clients && c.ip == s.clients[fd].ip
    ensures CountsExact(Updated(s, fd, c))
  {
    var t := Updated(s, fd, c);
    forall ip ensures CountExact(t, ip) {
      assert CountExact(s, ip);
      assert ClientsOf(t, ip) == ClientsOf(s, ip);
    }
  }

  lemma UpdateKeepsConsistent(s: Server, fd: int, c: Client)
    requires Consistent(s) && fd in s.clients && c.ip == s.clients[fd].ip
    requires s.clients[fd].loginFinished ==> c.loginFinished
    requires c.loginFinished <==> c.state.Config? || c.state.Play?
    ensures Consistent(Updated(s, fd, c))
  {
    hide CountsExact;
    UpdateKeepsCounts(s, fd, c);
    var t := Updated(s, fd, c);
    assert Online(t) == if c.loginFinished then Online(s) + {fd} else Online(s);
  }

  lemma ReadKeepsConsistent(s: Server, fd: int, id: int, argument: int)
    requires Consistent(s)
    ensures Consistent(OnRead(s, fd, id, argument))
  {
    if fd in s.clients {
      var client := s.clients[fd];
      assert client.loginFinished <==> client.state.Config? || client.state.Play?;
      hide CountsExact, LoginMarksExact, Online;
      match client.state
      case Handshake =>
        UpdateKeepsConsistent(s, fd, client.(state := HandshakeTarget(argument)));
      case Login =>
        UpdateKeepsConsistent(s, fd, client.(state := Config, loginFinished := true));
      case Config =>
        UpdateKeepsConsistent(s, fd, client.(state := Play));
      case _ =>
    }
  }

  lemma EmptyConsistent()
    ensures Consistent(EMPTY)
  {
    assert forall ip :: ClientsOf(EMPTY, ip) == {};
    assert Online(EMPTY) == {};
  }

  lemma {:induction false} AlwaysConsistent(limits: Limits, events: seq<Event>, n: nat)
    requires n <= |events|
    ensures Consistent(After(limits, events, n))
  {
    hide Consistent, AddClient, RemoveClient, OnRead;
    if n == 0 {
      EmptyConsistent();
    } else {
      AlwaysConsistent(limits, events, n - 1);
      var s := After(limits, events, n - 1);
      match events[n - 1]
      case Accept(fd, ip, now) => AddKeepsConsistent(s, limits, fd, ip, now);
      case Disconnect(fd) => RemoveKeepsConsistent(s, fd);
      case Packet(fd, id, argument) => ReadKeepsConsistent(s, fd, id, argument);
    }
  }

  // ----- the concurrency cap

  lemma SubsetSize<T>(a: set<T>, b: set<T>)
    requires a <= b
    ensures |a| <= |b|
  {
    assert b == a + (b - a);
  }

  /** A client that is not marked brings the number of clients to at most the cap. */
  lemma CapAfterAdd(s: Server, limits: Limits, fd: int, ip: string, now: int)
    requires CountExact(s, ip) && fd !in s.clients
    requires AddClient(s, limits, fd, ip, now).clients[fd].kickAtLogin != 2
    ensures |Unmarked(AddClient(s, limits, fd, ip, now), ip)| <= limits.maxConcurrentAccount
  {
    var t := AddClient(s, limits, fd, ip, now);
    ClientsAfterAdd(s, t, fd, t.clients[fd], ip);
    assert |ClientsOf(t, ip)| == CountAfterAdd(s, ip) <= limits.maxConcurrentAccount;
    SubsetSize(Unmarked(t, ip), ClientsOf(t, ip));
  }

  lemma CapStepFor(s: Server, limits: Limits, e: Event, ip: string)
    requires limits.maxConcurrentAccount >= 0 && CountsExact(s)
    requires |Unmarked(s, ip)| <= limits.maxConcurrentAccount
    ensures |Unmarked(Step(s, limits, e), ip)| <= limits.maxConcurrentAccount
  {
    hide CountExact;
    var t := Step(s, limits, e);
    match e
    case Accept(fd, from, now) =>
      if fd in s.clients || from != ip || t.clients[fd].kickAtLogin == 2 {
        assert Unmarked(t, ip) == Unmarked(s, ip);
      } else {
        assert CountExact(s, ip);
        CapAfterAdd(s, limits, fd, ip, now);
      }
    case Disconnect(fd) =>
      SubsetSize(Unmarked(t, ip), Unmarked(s, ip));
    case Packet(fd, id, argument) =>
      assert Unmarked(t, ip) == Unmarked(s, ip);
  }

  lemma CapStep(s: Server, limits: Limits, e: Event)
    requires limits.maxConcurrentAccount >= 0 && Consistent(s) && CapKept(s, limits)
    ensures CapKept(Step(s, limits, e), limits)
  {
    hide LoginMarksExact, Online;
    var t := Step(s, limits, e);
    forall ip ensures |Unmarked(t, ip)| <= limits.maxConcurrentAccount {
      assert |Unmarked(s, ip)| <= limits.maxConcurrentAccount;
      CapStepFor(s, limits, e, ip);
    }
  }

  lemma EmptyCapKept(limits: Limits)
    requires limits.maxConcurrentAccount >= 0
    ensures CapKept(EMPTY, limits)
  {
    assert forall ip :: Unmarked(EMPTY, ip) == {};
  }

  /** At all times, at most the allowed number of live clients of an address are not marked 2. */
  lemma {:induction false} CapAlwaysKept(limits: Limits, events: seq<Event>, n: nat)
    requires limits.maxConcurrentAccount >= 0 && n <= |events|
    ensures CapKept(After(limits, events, n), limits)
  {
    hide Step, CapKept, Consistent;
    if n == 0 {
      EmptyCapKept(limits);
    } else {
      AlwaysConsistent(limits, events, n - 1);
      CapAlwaysKept(limits, events, n - 1);
      CapStep(After(limits, events, n - 1), limits, events[n - 1]);
    }
  }

  // ----- the rate limiter

  /** Event `i` adds a client of `ip` that is not marked at all. */
  ghost predicate Admits(limits: Limits, events: seq<Event>, i: nat, ip: string)
    requires i < |events|
  {
    && events[i].Accept? && events[i].ip == ip
    && var s := After(limits, events, i);
    && events[i].fd !in s.clients
    && AddClient(s, limits, events[i].fd, ip, events[i].now).clients[events[i].fd].kickAtLogin == 0
  }

  /** The limiter remembers a time no earlier than that of any client admitted so far. */
  lemma {:induction false} LimiterRemembers(limits: Limits, events: seq<Event>, i: nat, n: nat, ip: string)
    requires limits.rateLimit >= 0 && i < n <= |events| && Admits(limits, events, i, ip)
    ensures var s := After(limits, events, n);
            ip in s.rateLimiterData && events[i].now <= s.rateLimiterData[ip]
  {
    if i + 1 < n {
      LimiterRemembers(limits, events, i, n - 1, ip);
    }
  }

  /** Any two clients of an address that were added without a mark were added more than the limit apart,
      whatever the clock does in between. */
  lemma AdmissionsSpaced(limits: Limits, events: seq<Event>, i: nat, j: nat, ip: string)
    requires limits.rateLimit >= 0 && i < j < |events|
    requires Admits(limits, events, i, ip) && Admits(limits, events, j, ip)
    ensures events[j].now > events[i].now + limits.rateLimit
  {
    LimiterRemembers(limits, events, i, j, ip);
  }

  // ----- who is admitted, and what a packet changes

  /** The mark of a new client: 2 exactly when its address already has as many live clients as allowed, 1 exactly
      when it has fewer but the remembered time of the address is not far enough back, and otherwise none. */
  ghost predicate MarkIs(s: Server, limits: Limits, ip: string, now: int, mark: int) {
    var live := |ClientsOf(s, ip)|;
    var late := ip in s.rateLimiterData && s.rateLimiterData[ip] + limits.rateLimit >= now;
    && (mark == 0 <==> live < limits.maxConcurrentAccount && !late)
    && (mark == 1 <==> live < limits.maxConcurrentAccount && late)
    && (mark == 2 <==> live >= limits.maxConcurrentAccount)
  }

  /** A new client is marked so, and the time is remembered exactly when it is far enough from the one before. */
  lemma MarkOfNewClient(s: Server, limits: Limits, fd: int, ip: string, now: int)
    requires CountExact(s, ip) && fd !in s.clients
    ensures var t := AddClient(s, limits, fd, ip, now);
            var late := ip in s.rateLimiterData && s.rateLimiterData[ip] + limits.rateLimit >= now;
            && fd in t.clients && t.clients == s.clients[fd := Client(ip, Handshake, t.clients[fd].kickAtLogin, false)]
            && MarkIs(s, limits, ip, now, t.clients[fd].kickAtLogin)
            && t.rateLimiterData == (if late then s.rateLimiterData else s.rateLimiterData[ip := now])
            && t.onlinePlayers == s.onlinePlayers
  {
    hide ClientsOf;
  }

  /** So it is in every reachable state. */
  lemma AdmittedExactly(limits: Limits, events: seq<Event>, n: nat)
    requires n < |events| && events[n].Accept? && events[n].fd !in After(limits, events, n).clients
    ensures var t, e := After(limits, events, n + 1), events[n];
            e.fd in t.clients && MarkIs(After(limits, events, n), limits, e.ip, e.now, t.clients[e.fd].kickAtLogin)
  {
    hide AddClient, CountExact, Online, LoginMarksExact, MarkIs;
    var s, e := After(limits, events, n), events[n];
    AlwaysConsistent(limits, events, n);
    assert CountExact(s, e.ip);
    MarkOfNewClient(s, limits, e.fd, e.ip, e.now);
  }

  /** A remembered time is that of an earlier new client of the address, and has been remembered since. */
  lemma {:induction false} RememberedTimeIsOfAnAccept(limits: Limits, events: seq<Event>, n: nat, ip: string)
    returns (k: nat)
    requires n <= |events| && ip in After(limits, events, n).rateLimiterData
    ensures k < n && events[k].Accept? && events[k].ip == ip && events[k].fd !in After(limits, events, k).clients
    ensures forall m: nat {:trigger After(limits, events, m)} :: k < m <= n ==>
              var times := After(limits, events, m).rateLimiterData; ip in times && times[ip] == events[k].now
  {
    var s, t := After(limits, events, n - 1), After(limits, events, n);
    if ip in s.rateLimiterData && s.rateLimiterData[ip] == t.rateLimiterData[ip] {
      k := RememberedTimeIsOfAnAccept(limits, events, n - 1, ip);
    } else {
      k := n - 1;
    }
  }

  /** A new client is not marked when fewer than allowed are live, and the limit has passed since every earlier
      arrival from its address. */
  lemma PatientClientAdmitted(limits: Limits, events: seq<Event>, n: nat)
    requires n < |events| && events[n].Accept? && events[n].fd !in After(limits, events, n).clients
    requires |ClientsOf(After(limits, events, n), events[n].ip)| < limits.maxConcurrentAccount
    requires forall k :: 0 <= k < n && events[k].Accept? && events[k].ip == events[n].ip ==>
               events[k].now + limits.rateLimit < events[n].now
    ensures After(limits, events, n + 1).clients[events[n].fd].kickAtLogin == 0
  {
    hide ClientsOf, Step;
    var s, e := After(limits, events, n), events[n];
    AdmittedExactly(limits, events, n);
    if e.ip in s.rateLimiterData {
      var k := RememberedTimeIsOfAnAccept(limits, events, n, e.ip);
      assert s.rateLimiterData[e.ip] == events[k].now;
    }
  }

  /** Every change that a packet makes: which states it leads from and to, by packet id and, in the handshake,
      by the low byte of the state asked for; and that nothing else changes. */
  lemma PacketChangesExactly(s: Server, fd: int, id: int, argument: int)
    requires fd in s.clients
    ensures var t := OnRead(s, fd, id, argument);
            && t.clients.Keys == s.clients.Keys
            && (forall f :: f in s.clients && f != fd ==> t.clients[f] == s.clients[f])
            && t.rateLimiterData == s.rateLimiterData && t.concurrentAccounts == s.concurrentAccounts
    ensures var t := OnRead(s, fd, id, argument);
            var c, d, shaken := s.clients[fd], t.clients[fd], s.clients[fd].state.Handshake? && id == 0;
            && d.ip == c.ip && d.kickAtLogin == c.kickAtLogin
            && (d.state.Handshake? <==> c.state.Handshake? && id != 0)
            && (d.state.Status? <==> c.state.Status? || (shaken && argument % 256 != 2 && argument % 256 != 3))
            && (d.state.Login? <==> (c.state.Login? && id != 3) || (shaken && argument % 256 == 2))
            && (d.state.Transfer? <==> c.state.Transfer? || (shaken && argument % 256 == 3))
            && (d.state.Config? <==> (c.state.Config? && id != 3) || (c.state.Login? && id == 3))
            && (d.state.Play? <==> c.state.Play? || (c.state.Config? && id == 3))
            && (d.loginFinished <==> c.loginFinished || (c.state.Login? && id == 3))
            && t.onlinePlayers == s.onlinePlayers + if c.state.Login? && id == 3 then 1 else 0
  {
  }

  // ----- the order of states

  /** `fd` has been connected without interruption since `k`. */
  ghost predicate LiveSince(limits: Limits, events: seq<Event>, fd: int, k: nat, n: nat)
    requires k <= n <= |events|
  {
    forall m: nat {:trigger After(limits, events, m)} :: k <= m <= n ==> fd in After(limits, events, m).clients
  }

  /** A connection in configuration or play was in login at some point since it was accepted. */
  lemma {:induction false} OnlyThroughLogin(limits: Limits, events: seq<Event>, fd: int, n: nat)
    returns (k: nat)
    requires n <= |events|
    requires var clients := After(limits, events, n).clients;
             fd in clients && (clients[fd].state.Config? || clients[fd].state.Play?)
    ensures k < n && LiveSince(limits, events, fd, k, n)
    ensures After(limits, events, k).clients[fd].state.Login?
  {
    var s := After(limits, events, n - 1);
    assert fd in s.clients;
    if s.clients[fd].state.Login? {
      k := n - 1;
    } else {
      k := OnlyThroughLogin(limits, events, fd, n - 1);
    }
  }
}
