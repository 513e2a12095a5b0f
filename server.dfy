/** The UDP chat server: a registry of clients keyed by the sender's
    address and the handler that turns one inbound datagram into a change
    of the registry plus a batch of outgoing datagrams.

    `Step` states what one handled message does; `ChatServer.Handle` is
    the imperative handler, proved to do exactly that. Go's map iteration
    order is unspecified, so the loops pick any remaining entry; outgoing
    datagrams are described by their set of recipients, and the one reply
    whose text depends on the order (the `/users` roster) is described for
    the order the handler happened to use. */
module Server {
  import opened Text
  import opened Wire

  /** The registry key: the sender's `addr.String()`. */
  type Addr = string

  /** One registered participant (`Client` in the Go source). Its address
      is the registry key, to which every datagram for it is sent. */
  datatype Client = Client(name: string, lastSeen: int, isAdmin: bool)

  type Registry = map<Addr, Client>

  /** One outgoing `WriteToUDP` call. */
  datatype Datagram = Datagram(to: Addr, text: string)

  /** What one handled message does: the registry afterwards, and one
      datagram carrying `text` to each address in `recipients`. Every case
      of the handler sends the same text to all its recipients. */
  datatype Effect = Effect(registry: Registry, recipients: set<Addr>, text: string)

  const RenamePrefix := "/rename "
  const KickPrefix := "/kick "
  const RosterHeader := "Connected users:\n"
  const AdminMenu := "ADMIN MENU:\n/kick <user>\n/shutdown"
  const KickNotice := "You were kicked by admin"

  /** The admin flag is exactly "the name is `admin`", for every entry. */
  ghost predicate AdminFlagsConsistent(reg: Registry) {
    forall a :: a in reg ==> reg[a].isAdmin == (reg[a].name == "admin")
  }

  /** The addresses whose client currently has the given name. */
  function Named(reg: Registry, name: string): set<Addr> {
    set a | a in reg && reg[a].name == name
  }

  /** The messages a registered sender can trigger a command with; all
      other text from a registered sender is chat. */
  predicate IsCommand(msg: string, isAdmin: bool) {
    || msg == "/users"
    || msg == "/quit"
    || HasPrefix(msg, RenamePrefix)
    || HasPrefix(msg, WhisperPrefix)
    || (msg == "/menu" && isAdmin)
    || (HasPrefix(msg, KickPrefix) && isAdmin)
  }

  /** One roster line: `- <name>`, tagged ` (admin)` for admins. */
  function RosterLine(c: Client): string {
    "- " + c.name + (if c.isAdmin then " (admin)" else "") + "\n"
  }

  /** The roster lines for the entries of `reg`, in the order `order`
      visits them. */
  function RosterLines(reg: Registry, order: seq<Addr>): string {
    if order == [] then ""
    else
      var a := order[|order| - 1];
      RosterLines(reg, order[..|order| - 1]) + (if a in reg then RosterLine(reg[a]) else "")
  }

  /** The `/users` reply when the registry is visited in the order `order`. */
  function Roster(reg: Registry, order: seq<Addr>): string {
    RosterHeader + RosterLines(reg, order)
  }

  /** `order` lists every address of `keys` exactly once. */
  ghost predicate Enumerates(order: seq<Addr>, keys: set<Addr>) {
    && (forall i, j :: 0 <= i < j < |order| ==> order[i] != order[j])
    && (forall i :: 0 <= i < |order| ==> order[i] in keys)
    && (forall a :: a in keys ==> a in order)
  }

  /** The effect of handling `msg` from `addr` at time `now`; `order` is
      the order in which the `/users` loop visits the registry. */
  function Step(reg: Registry, addr: Addr, msg: string, now: int, order: seq<Addr>): (e: Effect)
    // no key is ever added except the sender's (which keys leave is
    // `StepRemovesExactly`)
    ensures e.registry.Keys <= reg.Keys + {addr}
    // no other client's record is ever changed
    ensures forall a :: a in e.registry && a != addr ==> a in reg && e.registry[a] == reg[a]
    // a registered sender is marked as seen now, whatever it sent
    ensures addr in reg && addr in e.registry ==> e.registry[addr].lastSeen == now
    // the admin flag stays derived from the name
    ensures AdminFlagsConsistent(reg) ==> AdminFlagsConsistent(e.registry)
    // datagrams only go to clients known before or after the message
    ensures e.recipients <= reg.Keys + e.registry.Keys
  {
    if addr in reg then
      var client := reg[addr].(lastSeen := now);
      var touched := reg[addr := client];
      if msg == "/users" then
        Effect(touched, {addr}, Roster(touched, order))
      else if msg == "/quit" then
        var rest := touched - {addr};
        Effect(rest, rest.Keys, client.name + " left")
      else if HasPrefix(msg, RenamePrefix) then
        var newName := TrimPrefix(msg, RenamePrefix);
        var renamed := touched[addr := client.(name := newName, isAdmin := newName == "admin")];
        Effect(renamed, renamed.Keys, newName + " changed name to " + newName)
      else if HasPrefix(msg, WhisperPrefix) then
        var parts := SplitN2(TrimPrefix(msg, WhisperPrefix), ':');
        if |parts| == 2 then
          Effect(touched, Named(touched, parts[0]), "[PM from " + client.name + "] " + parts[1])
        else
          Effect(touched, {}, "")
      else if msg == "/menu" && client.isAdmin then
        Effect(touched, {addr}, AdminMenu)
      else if HasPrefix(msg, KickPrefix) && client.isAdmin then
        var kicked := Named(touched, TrimPrefix(msg, KickPrefix));
        Effect(touched - kicked, kicked, KickNotice)
      else
        Effect(touched, touched.Keys, client.name + ": " + msg)
    else if HasPrefix(msg, RegisterPrefix) then
      var name := TrimPrefix(msg, RegisterPrefix);
      var joined := reg[addr := Client(name, now, name == "admin")];
      Effect(joined, joined.Keys, "User " + name + " joined")
    else
      Effect(reg, {}, "")
  }

  // ---------------------------------------------------------------------
  // Outgoing datagrams

  /** The addresses `sent` delivers to. */
  function Recipients(sent: seq<Datagram>): set<Addr> {
    if sent == [] then {} else Recipients(sent[..|sent| - 1]) + {sent[|sent| - 1].to}
  }

  /** `sent` carries `text` to each address of `to`, exactly once each. */
  ghost predicate Delivers(sent: seq<Datagram>, to: set<Addr>, text: string) {
    && (forall i :: 0 <= i < |sent| ==> sent[i].text == text)
    && (forall i, j :: 0 <= i < j < |sent| ==> sent[i].to != sent[j].to)
    && Recipients(sent) == to
  }

  /** `after` is `before` followed by datagrams that deliver `text` to
      exactly the addresses `to`. */
  ghost predicate SentSince(before: seq<Datagram>, after: seq<Datagram>, to: set<Addr>, text: string) {
    |before| <= |after| && after[..|before|] == before && Delivers(after[|before|..], to, text)
  }

  lemma {:induction false} RecipientsAt(sent: seq<Datagram>, a: Addr)
    ensures a in Recipients(sent) <==> exists i :: 0 <= i < |sent| && sent[i].to == a
  {
    if sent != [] {
      var init := sent[..|sent| - 1];
      RecipientsAt(init, a);
      if a in Recipients(init) {
        var i :| 0 <= i < |init| && init[i].to == a;
        assert sent[i].to == a;
      }
      if exists i :: 0 <= i < |sent| && sent[i].to == a {
        var i :| 0 <= i < |sent| && sent[i].to == a;
        if i < |init| {
          assert init[i].to == a;
        }
      }
    }
  }

  /** Sending `text` to one more address that has not had it yet keeps the
      batch one-datagram-per-recipient. */
  lemma SentSinceExtend(before: seq<Datagram>, after: seq<Datagram>, to: set<Addr>, text: string, a: Addr)
    requires SentSince(before, after, to, text)
    requires a !in to
    ensures SentSince(before, after + [Datagram(a, text)], to + {a}, text)
  {
    var sent := after[|before|..];
    var sent' := (after + [Datagram(a, text)])[|before|..];
    assert sent' == sent + [Datagram(a, text)];
    assert sent'[..|sent'| - 1] == sent;
    forall i | 0 <= i < |sent|
      ensures sent[i].to != a
    {
      RecipientsAt(sent, sent[i].to);
    }
  }

  lemma SentSinceNothing(before: seq<Datagram>, text: string)
    ensures SentSince(before, before, {}, text)
  {
    assert before[|before|..] == [];
  }

  /** A batch that delivers to `to` has exactly one datagram per address. */
  lemma {:induction false} DeliversCount(sent: seq<Datagram>, to: set<Addr>, text: string)
    requires Delivers(sent, to, text)
    ensures |sent| == |to|
  {
    if sent != [] {
      var init := sent[..|sent| - 1];
      var last := sent[|sent| - 1];
      assert Delivers(init, Recipients(init), text);
      DeliversCount(init, Recipients(init), text);
      RecipientsAt(init, last.to);
      assert last.to !in Recipients(init);
    }
  }

  // ---------------------------------------------------------------------
  // The roster

  /** Visiting one more, not yet visited, address extends an enumeration. */
  lemma EnumeratesExtend(order: seq<Addr>, done: set<Addr>, a: Addr)
    requires Enumerates(order, done) && a !in done
    ensures Enumerates(order + [a], done + {a})
  {
  }

  /** Visiting one more registered address appends its roster line. */
  lemma RosterExtend(reg: Registry, order: seq<Addr>, a: Addr)
    requires a in reg
    ensures Roster(reg, order + [a]) == Roster(reg, order) + RosterLine(reg[a])
  {
    assert (order + [a])[..|order|] == order;
  }

  /** An enumeration of a set has one element per member of the set. */
  lemma {:induction false} EnumerationLength(order: seq<Addr>, keys: set<Addr>)
    requires Enumerates(order, keys)
    ensures |order| == |keys|
  {
    if order != [] {
      var last := order[|order| - 1];
      var init := order[..|order| - 1];
      assert last !in init;
      forall a | a in keys - {last} ensures a in init {
        var i :| 0 <= i < |order| && order[i] == a;
      }
      EnumerationLength(init, keys - {last});
    }
  }

  /** Whatever order the `/users` loop visits the registry in, the roster
      visits each registered client once, and the roster starts with its
      header and mentions each client's line. A name may itself contain a
      newline, so the number of text lines is not the number of clients. */
  lemma {:induction false} RosterListsEveryClient(reg: Registry, order: seq<Addr>, a: Addr)
    requires Enumerates(order, reg.Keys)
    requires a in reg
    ensures |order| == |reg|
    ensures HasPrefix(Roster(reg, order), RosterHeader)
    ensures Occurs(RosterLine(reg[a]), Roster(reg, order))
  {
    EnumerationLength(order, reg.Keys);
    var i :| 0 <= i < |order| && order[i] == a;
    RosterHasLineAt(reg, order, i);
  }

  /** The roster shows the line of the client visited at position `i`. */
  lemma RosterHasLineAt(reg: Registry, order: seq<Addr>, i: nat)
    requires i < |order| && order[i] in reg
    ensures Occurs(RosterLine(reg[order[i]]), Roster(reg, order))
  {
    RosterLinesPrefix(reg, order, i);
    var before := RosterHeader + RosterLines(reg, order[..i]);
    var line := RosterLine(reg[order[i]]);
    var rest := RosterLinesFrom(reg, order, i + 1);
    assert RosterLinesFrom(reg, order, i) == line + rest;
    assert Roster(reg, order) == before + line + rest;
    OccursIn(before, line, rest);
  }

  /** The roster lines of the entries after position `k` of `order`. */
  function RosterLinesFrom(reg: Registry, order: seq<Addr>, k: nat): string
    requires k <= |order|
    decreases |order| - k
  {
    if k == |order| then ""
    else (if order[k] in reg then RosterLine(reg[order[k]]) else "") + RosterLinesFrom(reg, order, k + 1)
  }

  lemma {:induction false} RosterLinesPrefix(reg: Registry, order: seq<Addr>, k: nat)
    requires k <= |order|
    ensures RosterLines(reg, order) == RosterLines(reg, order[..k]) + RosterLinesFrom(reg, order, k)
    decreases |order| - k
  {
    if k < |order| {
      RosterLinesPrefix(reg, order, k + 1);
      var p := order[..k + 1];
      assert p[..|p| - 1] == order[..k];
    } else {
      assert order[..k] == order;
    }
  }

  // ---------------------------------------------------------------------
  // Properties of one handled message, case by case

  /** From an unregistered address only `REGISTER:` has any effect. */
  lemma UnregisteredIgnored(reg: Registry, addr: Addr, msg: string, now: int, order: seq<Addr>)
    requires addr !in reg && !HasPrefix(msg, RegisterPrefix)
    ensures Step(reg, addr, msg, now, order).registry == reg
    ensures Step(reg, addr, msg, now, order).recipients == {}
  {
  }

  /** `REGISTER:<name>` from a new address adds exactly one entry, keyed by
      the sender, named by the text after the prefix, with no uniqueness
      check, and announces the join to everyone, the newcomer included. */
  lemma RegisterJoins(reg: Registry, addr: Addr, name: string, now: int, order: seq<Addr>)
    requires addr !in reg
    ensures var e := Step(reg, addr, RegisterPrefix + name, now, order);
      && e.registry.Keys == reg.Keys + {addr}
      && e.registry[addr] == Client(name, now, name == "admin")
      && (forall a :: a in reg ==> e.registry[a] == reg[a])
      && e.recipients == reg.Keys + {addr}
      && e.text == "User " + name + " joined"
  {
    var msg := RegisterPrefix + name;
    assert HasPrefix(msg, RegisterPrefix) && msg[|RegisterPrefix|..] == name;
  }

  /** A registered sender's message that matches no command, including
      `REGISTER:...`, unknown `/` commands and a non-admin's `/menu` or
      `/kick `, is broadcast as `<name>: <msg>` to every client. */
  lemma ChatBroadcast(reg: Registry, addr: Addr, msg: string, now: int, order: seq<Addr>)
    requires addr in reg && !IsCommand(msg, reg[addr].isAdmin)
    ensures var e := Step(reg, addr, msg, now, order);
      && e.registry == reg[addr := reg[addr].(lastSeen := now)]
      && e.recipients == reg.Keys
      && e.text == reg[addr].name + ": " + msg
  {
  }

  /** `/users` answers the sender alone with the roster and changes nothing
      but the sender's `lastSeen`. */
  lemma UsersReply(reg: Registry, addr: Addr, now: int, order: seq<Addr>)
    requires addr in reg
    ensures var e := Step(reg, addr, "/users", now, order);
      && e.registry == reg[addr := reg[addr].(lastSeen := now)]
      && e.recipients == {addr}
      && e.text == Roster(e.registry, order)
  {
  }

  /** An admin's `/menu` answers the sender alone with the fixed menu. */
  lemma AdminMenuReply(reg: Registry, addr: Addr, now: int, order: seq<Addr>)
    requires addr in reg && reg[addr].isAdmin
    ensures var e := Step(reg, addr, "/menu", now, order);
      && e.registry == reg[addr := reg[addr].(lastSeen := now)]
      && e.recipients == {addr}
      && e.text == AdminMenu
  {
  }

  /** `/quit` removes the sender's entry only and tells the remaining
      clients, not the leaver. */
  lemma QuitLeaves(reg: Registry, addr: Addr, now: int, order: seq<Addr>)
    requires addr in reg
    ensures var e := Step(reg, addr, "/quit", now, order);
      && e.registry == reg - {addr}
      && addr !in e.recipients
      && e.recipients == reg.Keys - {addr}
      && e.text == reg[addr].name + " left"
  {
    var e := Step(reg, addr, "/quit", now, order);
    assert e.registry == reg - {addr};
  }

  /** `/rename X` keeps the sender's key, sets its name to X and its admin
      flag to `X == "admin"`, and announces `X changed name to X` (the new
      name twice: the record is renamed before the notice is formatted). */
  lemma RenameKeepsKey(reg: Registry, addr: Addr, newName: string, now: int, order: seq<Addr>)
    requires addr in reg
    ensures var e := Step(reg, addr, RenamePrefix + newName, now, order);
      && e.registry.Keys == reg.Keys
      && e.registry[addr] == Client(newName, now, newName == "admin")
      && (forall a :: a in reg && a != addr ==> e.registry[a] == reg[a])
      && e.recipients == reg.Keys
      && e.text == newName + " changed name to " + newName
  {
    var msg := RenamePrefix + newName;
    assert HasPrefix(msg, RenamePrefix) && msg[|RenamePrefix|..] == newName;
    DiffersAt(msg, "/users", 1);
    DiffersAt(msg, "/quit", 1);
  }

  /** `WHISPER:t:m` sends `[PM from <sender>] m` to exactly the clients
      named `t` (the sender too, if that is its own name) and to nobody
      else; it changes nothing but the sender's `lastSeen`. */
  lemma WhisperDelivers(reg: Registry, addr: Addr, target: string, body: string, now: int, order: seq<Addr>)
    requires addr in reg && ':' !in target
    ensures var e := Step(reg, addr, WhisperPrefix + target + ":" + body, now, order);
      && e.registry == reg[addr := reg[addr].(lastSeen := now)]
      && e.recipients == Named(reg, target)
      && e.text == "[PM from " + reg[addr].name + "] " + body
  {
    var rest := target + [':'] + body;
    assert WhisperPrefix + target + ":" + body == WhisperPrefix + rest;
    WhisperStep(reg, addr, rest, now, order);
    SplitJoined(target, ':', body);
    NamedIgnoresLastSeen(reg, addr, now, target);
  }

  /** Marking a client as seen does not change who has which name. */
  lemma NamedIgnoresLastSeen(reg: Registry, addr: Addr, now: int, name: string)
    requires addr in reg
    ensures Named(reg[addr := reg[addr].(lastSeen := now)], name) == Named(reg, name)
  {
  }

  /** A `WHISPER:` message is handled from the split of what follows the
      prefix. */
  lemma WhisperStep(reg: Registry, addr: Addr, rest: string, now: int, order: seq<Addr>)
    requires addr in reg
    ensures var touched := reg[addr := reg[addr].(lastSeen := now)];
      var parts := SplitN2(rest, ':');
      Step(reg, addr, WhisperPrefix + rest, now, order)
        == if |parts| == 2 then Effect(touched, Named(touched, parts[0]), "[PM from " + reg[addr].name + "] " + parts[1])
           else Effect(touched, {}, "")
  {
    var msg := WhisperPrefix + rest;
    assert HasPrefix(msg, WhisperPrefix) && TrimPrefix(msg, WhisperPrefix) == rest;
    DiffersAt(msg, "/users", 0);
    DiffersAt(msg, "/quit", 0);
    DiffersAt(msg, RenamePrefix, 0);
  }

  /** A `WHISPER:` message without a second `:` sends nothing at all. */
  lemma WhisperWithoutTargetSendsNothing(reg: Registry, addr: Addr, rest: string, now: int, order: seq<Addr>)
    requires addr in reg && ':' !in rest
    ensures var e := Step(reg, addr, WhisperPrefix + rest, now, order);
      && e.registry == reg[addr := reg[addr].(lastSeen := now)]
      && e.recipients == {}
  {
    WhisperStep(reg, addr, rest, now, order);
  }

  /** Whether handling `msg` from the registered `addr` removes the client
      at `a`: the sender itself by `/quit`, or any client, the sender
      included, whose name an admin's `/kick ` names. */
  predicate Removes(reg: Registry, addr: Addr, msg: string, a: Addr)
    requires addr in reg && a in reg
  {
    || (a == addr && msg == "/quit")
    || (reg[addr].isAdmin && HasPrefix(msg, KickPrefix) && reg[a].name == TrimPrefix(msg, KickPrefix))
  }

  /** A registered client leaves the registry exactly when the message is
      the sender's `/quit` or an admin's `/kick ` naming it; nobody leaves
      on a message from an unregistered address. */
  lemma StepRemovesExactly(reg: Registry, addr: Addr, msg: string, now: int, order: seq<Addr>, a: Addr)
    requires a in reg
    ensures a !in Step(reg, addr, msg, now, order).registry <==> addr in reg && Removes(reg, addr, msg, a)
  {
    if addr in reg && HasPrefix(msg, KickPrefix) {
      assert msg[0] == '/' && msg[1] == 'k';
      DiffersAt(msg, "/users", 1);
      DiffersAt(msg, "/quit", 1);
      DiffersAt(msg, RenamePrefix, 1);
      DiffersAt(msg, WhisperPrefix, 0);
      DiffersAt(msg, "/menu", 1);
    }
  }

  /** An admin's `/kick t` removes every client named `t`, the admin itself
      included if that is its name, changes nothing else but the admin's
      `lastSeen`, notifies exactly the removed clients and broadcasts
      nothing. */
  lemma KickRemoves(reg: Registry, addr: Addr, target: string, now: int, order: seq<Addr>)
    requires addr in reg && reg[addr].isAdmin
    ensures var e := Step(reg, addr, KickPrefix + target, now, order);
      && e.registry == reg[addr := reg[addr].(lastSeen := now)] - Named(reg, target)
      && e.recipients == Named(reg, target)
      && e.text == KickNotice
  {
    NamedIgnoresLastSeen(reg, addr, now, target);
    var msg := KickPrefix + target;
    assert HasPrefix(msg, KickPrefix) && msg[|KickPrefix|..] == target;
    DiffersAt(msg, "/users", 1);
    DiffersAt(msg, "/quit", 1);
    DiffersAt(msg, RenamePrefix, 1);
    DiffersAt(msg, WhisperPrefix, 0);
    DiffersAt(msg, "/menu", 1);
  }

  // ---------------------------------------------------------------------
  // The server state and its handler

  /** The server's `clients` map and the datagrams written so far. */
  class ChatServer {
    var clients: Registry
    var outbox: seq<Datagram>

    ghost predicate Valid()
      reads this
    {
      AdminFlagsConsistent(clients)
    }

    constructor ()
      ensures Valid() && clients == map[] && outbox == []
    {
      clients := map[];
      outbox := [];
    }

    /** Handles one datagram `msg` from `addr` received at time `now`.
        Returns, as a ghost, the order the `/users` loop visited. */
    method Handle(addr: Addr, msg: string, now: int) returns (ghost order: seq<Addr>)
      requires Valid()
      modifies this
      ensures Valid()
      ensures addr in old(clients) && msg == "/users" ==> Enumerates(order, old(clients).Keys)
      ensures var e := Step(old(clients), addr, msg, now, order);
        clients == e.registry && SentSince(old(outbox), outbox, e.recipients, e.text)
    {
      order := [];
      if addr in clients {
        order := HandleRegistered(addr, msg, now);
      } else if HasPrefix(msg, RegisterPrefix) {
        var name := TrimPrefix(msg, RegisterPrefix);
        var isAdmin := name == "admin";
        clients := clients[addr := Client(name, now, isAdmin)];
        Broadcast("User " + name + " joined");
      } else {
        SentSinceNothing(outbox, "");
      }
    }

    /** The command switch for a sender already in the registry. */
    method HandleRegistered(addr: Addr, msg: string, now: int) returns (ghost order: seq<Addr>)
      requires Valid() && addr in clients
      modifies this
      ensures Valid()
      ensures msg == "/users" ==> Enumerates(order, old(clients).Keys)
      ensures var e := Step(old(clients), addr, msg, now, order);
        clients == e.registry && SentSince(old(outbox), outbox, e.recipients, e.text)
    {
      order := [];
      ghost var reg := clients;
      var client := clients[addr].(lastSeen := now);
      clients := clients[addr := client];
      ghost var touched := clients;
      if msg == "/users" {
        order := ListUsers(addr);
        assert Step(reg, addr, msg, now, order) == Effect(touched, {addr}, Roster(touched, order));
      } else if msg == "/quit" {
        clients := clients - {addr};
        assert Step(reg, addr, msg, now, order) == Effect(clients, clients.Keys, client.name + " left");
        Broadcast(client.name + " left");
      } else if HasPrefix(msg, RenamePrefix) {
        var newName := TrimPrefix(msg, RenamePrefix);
        client := client.(name := newName, isAdmin := newName == "admin");
        clients := clients[addr := client];
        assert Step(reg, addr, msg, now, order)
          == Effect(clients, clients.Keys, client.name + " changed name to " + newName);
        Broadcast(client.name + " changed name to " + newName);
      } else if HasPrefix(msg, WhisperPrefix) {
        var parts := SplitN2(TrimPrefix(msg, WhisperPrefix), ':');
        if |parts| == 2 {
          var target, message := parts[0], parts[1];
          assert Step(reg, addr, msg, now, order)
            == Effect(clients, Named(clients, target), "[PM from " + client.name + "] " + message);
          Whisper(target, "[PM from " + client.name + "] " + message);
        } else {
          assert Step(reg, addr, msg, now, order) == Effect(clients, {}, "");
          SentSinceNothing(outbox, "");
        }
      } else if msg == "/menu" && client.isAdmin {
        assert Step(reg, addr, msg, now, order) == Effect(clients, {addr}, AdminMenu);
        SentSinceNothing(outbox, AdminMenu);
        SentSinceExtend(outbox, outbox, {}, AdminMenu, addr);
        outbox := outbox + [Datagram(addr, AdminMenu)];
      } else if HasPrefix(msg, KickPrefix) && client.isAdmin {
        var target := TrimPrefix(msg, KickPrefix);
        assert Step(reg, addr, msg, now, order)
          == Effect(clients - Named(clients, target), Named(clients, target), KickNotice);
        Kick(target);
      } else {
        assert Step(reg, addr, msg, now, order) == Effect(clients, clients.Keys, client.name + ": " + msg);
        Broadcast(client.name + ": " + msg);
      }
    }

    /** `broadcast`: one datagram with `text` to every current client. */
    method Broadcast(text: string)
      modifies this`outbox
      ensures SentSince(old(outbox), outbox, clients.Keys, text)
    {
      var remaining := clients.Keys;
      SentSinceNothing(outbox, text);
      while remaining != {}
        invariant remaining <= clients.Keys
        invariant SentSince(old(outbox), outbox, clients.Keys - remaining, text)
        decreases remaining
      {
        var a :| a in remaining;
        SentSinceExtend(old(outbox), outbox, clients.Keys - remaining, text, a);
        outbox := outbox + [Datagram(a, text)];
        remaining := remaining - {a};
      }
    }

    /** The `/users` loop: one roster line per client, in the order the
        loop visits them, sent to the requester alone. */
    method ListUsers(addr: Addr) returns (ghost order: seq<Addr>)
      modifies this`outbox
      ensures Enumerates(order, clients.Keys)
      ensures outbox == old(outbox) + [Datagram(addr, Roster(clients, order))]
    {
      var list := RosterHeader;
      var remaining := clients.Keys;
      order := [];
      while remaining != {}
        invariant remaining <= clients.Keys
        invariant Enumerates(order, clients.Keys - remaining)
        invariant list == Roster(clients, order)
        invariant outbox == old(outbox)
        decreases remaining
      {
        var a :| a in remaining;
        var c := clients[a];
        var adminTag := "";
        if c.isAdmin {
          adminTag := " (admin)";
        }
        var line := "- " + c.name + adminTag + "\n";
        assert line == RosterLine(c);
        list := list + line;
        RosterExtend(clients, order, a);
        EnumeratesExtend(order, clients.Keys - remaining, a);
        order := order + [a];
        remaining := remaining - {a};
      }
      assert clients.Keys - remaining == clients.Keys;
      outbox := outbox + [Datagram(addr, list)];
    }

    /** The whisper loop: `text` to every client named `target`. */
    method Whisper(target: string, text: string)
      modifies this`outbox
      ensures SentSince(old(outbox), outbox, Named(clients, target), text)
    {
      var remaining := clients.Keys;
      SentSinceNothing(outbox, text);
      while remaining != {}
        invariant remaining <= clients.Keys
        invariant SentSince(old(outbox), outbox, Named(clients, target) - remaining, text)
        decreases remaining
      {
        var a :| a in remaining;
        if clients[a].name == target {
          SentSinceExtend(old(outbox), outbox, Named(clients, target) - remaining, text, a);
          outbox := outbox + [Datagram(a, text)];
        }
        remaining := remaining - {a};
      }
    }

    /** The kick loop: removes every client named `target` while ranging
        over the registry and tells each removed client. */
    method Kick(target: string)
      requires Valid()
      modifies this
      ensures Valid()
      ensures clients == old(clients) - Named(old(clients), target)
      ensures SentSince(old(outbox), outbox, Named(old(clients), target), KickNotice)
    {
      ghost var named := Named(clients, target);
      var remaining := clients.Keys;
      SentSinceNothing(outbox, KickNotice);
      while remaining != {}
        invariant remaining <= old(clients).Keys
        invariant clients == old(clients) - (named - remaining)
        invariant SentSince(old(outbox), outbox, named - remaining, KickNotice)
        decreases remaining
      {
        var a :| a in remaining;
        if clients[a].name == target {
          clients := clients - {a};
          SentSinceExtend(old(outbox), outbox, named - remaining, KickNotice, a);
          outbox := outbox + [Datagram(a, KickNotice)];
          assert named - (remaining - {a}) == (named - remaining) + {a};
        } else {
          assert named - (remaining - {a}) == named - remaining;
        }
        remaining := remaining - {a};
      }
      assert named - remaining == named;
    }
  }
}
