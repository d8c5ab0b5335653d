/**
  The `ZincServer` object: its maps and the connections they point to are updated in place. Every
  method is proved to take the step of module ServerBook.
 */
module ZincServers {
  import opened ConnectionState
  import opened Framing
  import opened ServerBook

  ghost function ClientView(c: ZincConnection): Client
    reads c
  {
    Client(c.ip, c.state, c.kickAtLogin, c.loginFinished)
  }

  class ZincServer {
    var clients: map<int, ZincConnection>
    var rateLimiterData: map<string, int>
    var concurrentAccounts: map<string, int>
    var onlinePlayers: int
    const limits: Limits

    /** No connection is registered twice. */
    ghost predicate Valid()
      reads this
    {
      forall f, g :: f in clients && g in clients && clients[f] == clients[g] ==> f == g
    }

    ghost function View(): Server
      reads this, clients.Values
    {
      Server(map f | f in clients :: ClientView(clients[f]), rateLimiterData, concurrentAccounts, onlinePlayers)
    }

    constructor (limits: Limits)
      ensures Valid() && View() == EMPTY && clients == map[] && this.limits == limits
    {
      clients, rateLimiterData, concurrentAccounts, onlinePlayers := map[], map[], map[], 0;
      this.limits := limits;
    }

    predicate IsConnected(fd: int)
      reads this
    {
      fd in clients
    }

    /** The rate limiter lets the client pass and remembers the time, or marks it. */
    method CheckRate(client: ZincConnection, now: int)
      modifies this`rateLimiterData, client`kickAtLogin
      ensures var inTime := InTime(Server(map[], old(rateLimiterData), map[], 0), limits, client.ip, now);
              && client.kickAtLogin == (if inTime then old(client.kickAtLogin) else 1)
              && rateLimiterData == if inTime then old(rateLimiterData)[client.ip := now] else old(rateLimiterData)
    {
      var ip := client.ip;
      if ip in rateLimiterData {
        if rateLimiterData[ip] + limits.rateLimit < now {
          rateLimiterData := rateLimiterData[ip := now];
        } else {
          client.kickAtLogin := 1;
        }
      } else {
        rateLimiterData := rateLimiterData[ip := now];
      }
    }

    method CountAccount(client: ZincConnection)
      modifies this`concurrentAccounts, client`kickAtLogin
      ensures var count := CountAfterAdd(Server(map[], map[], old(concurrentAccounts), 0), client.ip);
              && concurrentAccounts == old(concurrentAccounts)[client.ip := count]
              && client.kickAtLogin == if count > limits.maxConcurrentAccount then 2 else old(client.kickAtLogin)
    {
      var ip := client.ip;
      if ip in concurrentAccounts {
        concurrentAccounts := concurrentAccounts[ip := concurrentAccounts[ip] + 1];
      } else {
        concurrentAccounts := concurrentAccounts[ip := 1];
      }
      if concurrentAccounts[ip] > limits.maxConcurrentAccount {
        client.kickAtLogin := 2;
      }
    }

    method AddClient(fd: int, client: ZincConnection, now: int)
      requires Valid() && client !in clients.Values
      requires client.state == Handshake && client.kickAtLogin == 0 && !client.loginFinished
      modifies this, client
      ensures Valid() && View() == ServerBook.AddClient(old(View()), limits, fd, client.ip, now)
      ensures clients == if old(IsConnected(fd)) then old(clients) else old(clients)[fd := client]
      ensures !old(IsConnected(fd)) && CountExact(old(View()), client.ip) ==>
                MarkIs(old(View()), limits, client.ip, now, client.kickAtLogin)
    {
      hide CountExact, MarkIs;
      if !IsConnected(fd) {
        ghost var before := View();
        CheckRate(client, now);
        CountAccount(client);
        clients := clients[fd := client];
        assert View().clients == before.clients[fd := ClientView(client)];
        assert View() == ServerBook.AddClient(before, limits, fd, client.ip, now);
        hide ServerBook.AddClient, InTime, CountAfterAdd;
        if CountExact(before, client.ip) {
          MarkOfNewClient(before, limits, fd, client.ip, now);
          assert View().clients[fd] == ClientView(client);
        }
      }
    }

    /** Reading the counter through the map inserts a zero where there is none, as the code's `[]` does. */
    method ReleaseAccount(ip: string)
      modifies this`concurrentAccounts
      ensures concurrentAccounts == CountAfterRemove(old(concurrentAccounts), ip)
    {
      if ip !in concurrentAccounts {
        concurrentAccounts := concurrentAccounts[ip := 0];
      }
      if concurrentAccounts[ip] != 0 {
        concurrentAccounts := concurrentAccounts[ip := concurrentAccounts[ip] - 1];
      }
      if concurrentAccounts[ip] == 0 {
        concurrentAccounts := concurrentAccounts - {ip};
      }
    }

    method RemoveClient(fd: int)
      requires Valid()
      modifies this
      ensures Valid() && View() == ServerBook.RemoveClient(old(View()), fd)
      ensures clients == old(clients) - {fd}
    {
      hide CountAfterRemove;
      ghost var before := View();
      if IsConnected(fd) {
        ReleaseAccount(clients[fd].ip);
        if clients[fd].loginFinished {
          onlinePlayers := onlinePlayers - 1;
        }
        clients := clients - {fd};
        assert View().clients == before.clients - {fd};
      }
    }

    /** The packets that change the bookkeeping; `argument` is the next state a handshake carries. */
    method OnRead(fd: int, id: int, argument: int)
      requires Valid()
      modifies this, clients.Values
      ensures Valid() && View() == ServerBook.OnRead(old(View()), fd, id, argument)
      ensures clients == old(clients)
    {
      if !IsConnected(fd) {
        return;
      }
      var connection := clients[fd];
      ghost var before := View();
      assert before.clients[fd := ClientView(connection)] == before.clients;
      match connection.state {
        case Handshake =>
          if id == 0 {
            connection.state := HandshakeTarget(argument);
          }
        case Login =>
          if id == 3 {
            connection.state := Config;
            connection.loginFinished := true;
            onlinePlayers := onlinePlayers + 1;
          }
        case Config =>
          if id == 3 {
            connection.state := Play;
          }
        case _ =>
      }
      forall f | f in clients ensures View().clients[f] == before.clients[fd := ClientView(connection)][f] {
        if f != fd {
          assert clients[f] != clients[fd];
        }
      }
      assert View().clients == before.clients[fd := ClientView(connection)];
    }
  }
}
