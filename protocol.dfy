/** How the client's wire messages fare at the server: the forms both
    sides agree on round-trip, and the forms only the client knows are
    relayed by the server as ordinary chat. */
module Protocol {
  import opened Text
  import opened Wire
  import opened Server
  import opened Client

  /** The client's `REGISTER:<username>` makes the server record exactly
      that name for the sender, admin exactly when it is `admin`. */
  lemma RegistrationRoundTrip(reg: Registry, addr: Addr, username: string, now: int, order: seq<Addr>)
    requires addr !in reg
    ensures var e := Step(reg, addr, RegisterMessage(username), now, order);
      && addr in e.registry
      && e.registry[addr].name == username
      && e.registry[addr].isAdmin == (username == "admin")
      && addr in e.recipients
      && e.text == "User " + username + " joined"
  {
    assert RegisterMessage(username) == RegisterPrefix + username;
    RegisterJoins(reg, addr, username, now, order);
  }

  /** An operator's `/whisper u m` reaches exactly the clients named `u`
      with body `m` (which may itself contain `:`), provided `u` has no
      `:` (it has no space, since the client splits at the first one). */
  lemma WhisperRoundTrip(reg: Registry, addr: Addr, u: string, m: string, username: string, now: int, order: seq<Addr>)
    requires addr in reg
    requires ' ' !in u && ':' !in u
    ensures Translate(Line("/whisper " + u + " " + m), username).Send?
    ensures var e := Step(reg, addr, Translate(Line("/whisper " + u + " " + m), username).wire, now, order);
      && e.recipients == Named(reg, u)
      && e.text == "[PM from " + reg[addr].name + "] " + m
      && e.registry == reg[addr := reg[addr].(lastSeen := now)]
  {
    WhisperTranslation(u, m, username);
    WhisperDelivers(reg, addr, u, m, now, order);
  }

  /** The wire forms only the client uses. */
  predicate ClientOnlyForm(wire: string) {
    || HasPrefix(wire, "QUIT:")
    || HasPrefix(wire, "RENAME:")
    || HasPrefix(wire, "KICK:")
    || HasPrefix(wire, "BROADCAST:")
    || HasPrefix(wire, "SHUTDOWN:")
    || wire == "/stats"
  }

  /** None of them matches a server case, whoever sends it. */
  lemma ClientOnlyFormIsNoCommand(wire: string, isAdmin: bool)
    requires ClientOnlyForm(wire)
    ensures !IsCommand(wire, isAdmin)
  {
    assert wire[0] in {'Q', 'R', 'K', 'B', 'S', '/'};
    if wire == "/stats" {
      assert wire[1] == 's';
    } else {
      assert wire[0] != '/' && wire[0] != 'W';
    }
  }

  /** Handling `wire` from the registered `addr` relays it to every client
      as `<name>: <wire>`, and changes nothing but the sender's `lastSeen`. */
  ghost predicate RelayedAsChat(reg: Registry, addr: Addr, wire: string, now: int, order: seq<Addr>)
    requires addr in reg
  {
    Step(reg, addr, wire, now, order)
      == Effect(reg[addr := reg[addr].(lastSeen := now)], reg.Keys, reg[addr].name + ": " + wire)
  }

  /** So the server relays a registered sender's `QUIT:`, `RENAME:`,
      `KICK:`, `BROADCAST:`, `SHUTDOWN:` or `/stats` message to everyone
      as chat. */
  lemma ClientOnlyFormIsChat(reg: Registry, addr: Addr, wire: string, now: int, order: seq<Addr>)
    requires addr in reg && ClientOnlyForm(wire)
    ensures RelayedAsChat(reg, addr, wire, now, order)
  {
    ClientOnlyFormIsNoCommand(wire, reg[addr].isAdmin);
    ChatBroadcast(reg, addr, wire, now, order);
  }

  /** Consequently the operator's `/quit`, `/rename X` and `/stats`, and the
      admin's `/kick t`, `/broadcast m` and `/shutdown`, typed at the
      client, neither deregister, rename, kick, announce, report nor stop
      anything at the server: each becomes a chat line seen by every
      client. */
  lemma OperatorCommandsReachServerAsChat(reg: Registry, addr: Addr, x: string, username: string, now: int, order: seq<Addr>)
    requires addr in reg
    ensures Translate(Line("/quit"), username) == SendAndStop("QUIT:" + username)
    ensures RelayedAsChat(reg, addr, "QUIT:" + username, now, order)
    ensures Translate(Line("/rename " + x), username) == Send("RENAME:" + x)
    ensures RelayedAsChat(reg, addr, "RENAME:" + x, now, order)
    ensures username == "admin" ==> Translate(Line("/kick " + x), username) == Send("KICK:" + x)
    ensures RelayedAsChat(reg, addr, "KICK:" + x, now, order)
    ensures username == "admin" ==> Translate(Line("/broadcast " + x), username) == Send("BROADCAST:" + x)
    ensures RelayedAsChat(reg, addr, "BROADCAST:" + x, now, order)
    ensures username == "admin" ==> Translate(Line("/shutdown"), username) == SendAndStop("SHUTDOWN:")
    ensures RelayedAsChat(reg, addr, "SHUTDOWN:", now, order)
    ensures Translate(Line("/stats"), username) == Send("/stats")
    ensures RelayedAsChat(reg, addr, "/stats", now, order)
  {
    UsersStatsTranslation(username);
    RenameQuitShutdownTranslation(x, username);
    AdminCommandsTranslation(x, username);
    ClientOnlyFormIsChat(reg, addr, "QUIT:" + username, now, order);
    ClientOnlyFormIsChat(reg, addr, "RENAME:" + x, now, order);
    ClientOnlyFormIsChat(reg, addr, "KICK:" + x, now, order);
    ClientOnlyFormIsChat(reg, addr, "BROADCAST:" + x, now, order);
    ClientOnlyFormIsChat(reg, addr, "SHUTDOWN:", now, order);
    ClientOnlyFormIsChat(reg, addr, "/stats", now, order);
  }
}
