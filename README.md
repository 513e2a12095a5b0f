# UDP chat relay: handler and client command table

This project models, in Dafny, the core of a small UDP chat system written
in Go. It has three parts:

- **The server's message handler** (`server.go`). A registry maps the
  sender's address string to a client record (name, last-seen time, admin
  flag). One inbound datagram from one address changes that registry and
  produces a batch of outgoing datagrams. The handler runs entirely under
  one mutex, so it is modelled as one sequential step.
- **The client's input-line translator** (`client.go`). It decides what one
  line typed by the operator becomes: a wire message, a wire message
  followed by shutdown, local help, a local error, or stop on end of input.
  It also covers the `REGISTER:` message the client sends first and the
  help text.
- **The protocol between the two**: which of the client's wire forms the
  server actually understands.

## Layout

- `wire.dfy` (module `Wire`): the `REGISTER:` and `WHISPER:` prefixes that
  both the client and the server use.
- `text.dfy` (module `Text`): the Go `strings` operations the code uses:
  `HasPrefix`, `TrimPrefix`, and `SplitN(s, sep, 2)` for a one-character
  separator. It also defines an "occurs in" predicate used to state what a
  text contains.
- `server.dfy` (module `Server`): the client record, the registry, and
  `Step`, the effect of one handled message. `Step` gives the new registry,
  the set of recipients, and the one text they all receive.
  - `Step` states the handler's global invariants. No key is added except
    the sender's. No other client's record changes. The sender is marked as
    seen. The admin flag stays equal to "name is `admin`".
  - `StepRemovesExactly` states which clients leave: the sender by `/quit`,
    and the clients an admin's `/kick` names. No other message removes
    anyone.
  - A lemma per case states what that case of the switch does.
  - Class `ChatServer` holds the `clients` map and the sequence of datagrams
    written so far. Its `Handle` method runs the switch and the loops over
    the map (`broadcast`, the `/users` list, the whisper loop, the kick loop)
    as imperative code. It is proved to produce exactly `Step`'s registry,
    and to append one datagram per recipient, each carrying `Step`'s text.
- `client.dfy` (module `Client`): `Translate`, the help entries and
  `HelpText`, and lemmas for each row of the input switch. About the help
  text itself, the model proves three things:
  - every shown entry's line occurs in it (`HelpListsShownCommands`);
  - the admin section occurs in it if and only if the user is the admin
    (`AdminSectionIffAdmin`);
  - `/kick` occurs in it if and only if the user is the admin (`HelpText`).

  Which commands each user is shown is proved over the entry list.
- `protocol.dfy` (module `Protocol`): round trips for registration and
  whisper. It also proves that the client's `QUIT:`, `RENAME:`, `KICK:`,
  `BROADCAST:`, `SHUTDOWN:` and `/stats` wire forms match no server case,
  so the server relays them to everyone as chat. The full effect is stated:
  the registry, the recipients, and the text.

Behaviour follows the Go code, including its quirks:

- A rename is announced as `X changed name to X`, because the record is
  renamed before the notice is formatted.
- Names need not be unique.
- `/kick` broadcasts nothing.
- A non-admin's `/menu` or `/kick`, and any unknown `/` command, are relayed
  as chat.
- A whisper reaches the sender too when the sender's own name is the
  target. The loop at `server.go:74-79` does not skip the sender.

Several features one might expect of such a relay are not in `server.go`,
so the model has none of them:

- an inactivity reaper;
- a broadcast queue;
- name uniqueness with rejection;
- `/stats` and `/help` handling on the server;
- "user not found" and "invalid command" replies;
- a broadcast announcing a kick.

Go's map iteration order is unspecified. The loops pick any remaining
entry. The outgoing datagrams of one message are described by their set of
recipients. The `/users` roster text is stated for the order the loop
actually visited, which `Handle` returns as a ghost value and which is
proved to list every registered address exactly once.

## Model

| member | source | states |
|---|---|---|
| Text.TrimPrefix | server.go:63 | with the prefix present, prefix followed by the result is the input; otherwise the input comes back unchanged |
| Text.SplitN2 | server.go:71 | one part (the whole input) exactly when the separator is absent; otherwise two parts that rejoin around the separator to the input, the first free of the separator |
| Text.SplitJoined | server.go:71-73 | splitting `u + sep + m` at the first separator gives back `u` and `m` when `u` lacks the separator, even if `m` contains it |
| Server.NamedIgnoresLastSeen | server.go:74-75 | the clients a name selects do not depend on the sender's `lastSeen`, so marking the sender as seen before the whisper loop changes no recipient |
| Server.Step | server.go:42-111 | for every message: no key is added except the sender's; no other record changes; a registered sender that stays gets `lastSeen = now`; the admin flag stays "name is admin"; datagrams go only to clients known before or after |
| Server.StepRemovesExactly | server.go:58-95 | a registered client leaves if and only if the sender is registered and either the client is the sender and the message is `/quit`, or the sender is an admin and the message is `/kick` followed by the client's name |
| Server.UnregisteredIgnored | server.go:100-111 | from an unregistered address, anything but `REGISTER:` leaves the registry as is and sends nothing |
| Server.RegisterJoins | server.go:100-110 | `REGISTER:name` adds exactly the sender's key with that name, time `now` and admin flag `name == admin`, keeps every other entry, and tells every client, newcomer included, `User name joined` |
| Server.ChatBroadcast | server.go:97-98 | a registered sender's text that matches no case goes to every client as `name: msg`; only the sender's `lastSeen` changes |
| Server.UsersReply | server.go:46-56 | `/users` answers the sender alone with the roster and changes only the sender's `lastSeen` |
| Server.RosterListsEveryClient | server.go:47-55 | whatever order the loop visits, the visiting order has one entry per client; the roster (the header followed by one `RosterLine` per visited client) starts with the header and contains every client's line, tagged ` (admin)` for admins |
| Server.AdminMenuReply | server.go:83-85 | an admin's `/menu` answers the sender alone with the fixed menu and changes only `lastSeen` |
| Server.QuitLeaves | server.go:58-60 | `/quit` removes only the sender and tells exactly the remaining clients `name left` |
| Server.RenameKeepsKey | server.go:62-67 | `/rename X` keeps every key, sets the sender's name to X and admin flag to `X == admin`, leaves the others, and announces `X changed name to X` to all |
| Server.WhisperDelivers | server.go:70-80 | `WHISPER:t:m` with `t` free of `:` sends `[PM from sender] m` to exactly the clients named `t` and changes only `lastSeen` |
| Server.WhisperWithoutTargetSendsNothing | server.go:71-72 | a `WHISPER:` message without a second `:` sends nothing |
| Server.KickRemoves | server.go:87-95 | an admin's `/kick t` leaves the registry as it was minus exactly the clients named `t` (the admin too if so named), with only the admin's `lastSeen` updated; it notifies exactly the removed clients and broadcasts nothing |
| Server.DeliversCount | server.go:117-121 | a batch that delivers to a set of addresses holds exactly one datagram per address |
| Server.ChatServer.constructor | server.go:21 | the server starts with an empty registry and nothing sent |
| Server.ChatServer.Handle | server.go:42-111 | the new registry is `Step`'s; the datagrams appended deliver `Step`'s text once to each of `Step`'s recipients; the admin-flag invariant is kept; for `/users` the ghost order enumerates the registry |
| Server.ChatServer.HandleRegistered | server.go:42-99 | the same for a registered sender: the switch over its message |
| Server.ChatServer.Broadcast | server.go:117-121 | appends one datagram with the text to each current client, each exactly once |
| Server.ChatServer.ListUsers | server.go:46-56 | visits every client once, in an order it returns, and sends the sender one datagram holding the roster for that order |
| Server.ChatServer.Whisper | server.go:74-79 | appends one datagram with the text to each client with the target name, and to no one else |
| Server.ChatServer.Kick | server.go:87-95 | removes exactly the clients with the target name while ranging over the map, sends each of them the kick notice once, and keeps the admin-flag invariant |
| Client.RegisterMessage | client.go:31 | the registration message starts with `REGISTER:` and stripping that prefix gives back the username |
| Client.Translate | client.go:89-135 | end of input and nothing else stops without sending; only `/quit` (as `QUIT:username`) and the admin's `/shutdown` (as `SHUTDOWN:`) send and then stop; only `/help` shows the help; a local error is the whisper usage line or the invalid-command message |
| Client.HelpText | client.go:151-171 | the help starts with the section for every user; it mentions `/kick` if and only if the user is the admin |
| Client.CommonHelpOmitsKick | client.go:152-160 | the section every user sees nowhere contains `/kick` |
| Client.AdminHelpMentionsKick | client.go:162-170 | the admin's help (common section followed by the admin section) contains `/kick` and starts with the common section |
| Client.HelpShowsAdminCommandsIffAdmin | client.go:151-171 | the help lists `/help`, `/users`, `/stats`, `/quit`, `/rename`, `/whisper` for everyone, and `/menu`, `/kick`, `/broadcast`, `/shutdown` if and only if the user is the admin |
| Client.AdminSectionIffAdmin | client.go:162-170 | the admin section, as one block of text, occurs in the help if and only if the user is the admin |
| Client.HelpListsShownCommands | client.go:151-171 | the printed help contains the line of every entry shown to that user |
| Client.EndOfInputStops | client.go:89-92 | end of input stops the client and sends nothing |
| Client.PlainLineSentVerbatim | client.go:129-134 | a line not starting with `/` is sent unchanged |
| Client.UnknownCommandSendsNothing | client.go:129-131 | a `/` line matching no command prints the invalid-command message and sends nothing |
| Client.WhisperTranslation | client.go:112-118 | `/whisper u m` with `u` free of spaces becomes `WHISPER:u:m`; `/whisper u` alone is a local usage error that sends nothing |
| Client.RenameQuitShutdownTranslation | client.go:97-128 | `/rename X` sends `RENAME:X`; `/quit` sends `QUIT:username` and stops; the admin's `/shutdown` sends `SHUTDOWN:` and stops |
| Client.UsersStatsTranslation | client.go:108-111 | `/users` and `/stats` are sent to the server unchanged, whoever the user is |
| Client.HelpIsLocal | client.go:101-102 | `/help` prints the help for the user's admin status and sends nothing |
| Client.AdminCommandsTranslation | client.go:103-131 | `/menu`, `/kick t`, `/broadcast m` and `/shutdown` produce their wire forms only for the admin; anyone else gets the invalid-command message and nothing is sent |
| Protocol.RegistrationRoundTrip | client.go:31 | the server records exactly the username the client registered with, admin exactly when it is `admin`, and announces the join to the newcomer too |
| Protocol.WhisperRoundTrip | client.go:112-115 | the client's `/whisper u m` reaches exactly the clients named `u` with body `m` (which may contain `:`) when `u` has no `:` |
| Protocol.ClientOnlyFormIsNoCommand | server.go:45-98 | `QUIT:`, `RENAME:`, `KICK:`, `BROADCAST:`, `SHUTDOWN:` and `/stats` match no case of the server's switch, for admins and others alike |
| Protocol.ClientOnlyFormIsChat | server.go:97-98 | such a message from a registered sender has exactly the chat effect: the registry changes only in the sender's `lastSeen`, every client before the message receives it, and the text is `name: msg` |
| Protocol.OperatorCommandsReachServerAsChat | client.go:97-128 | the operator's `/quit`, `/rename X` and `/stats`, and the admin's `/kick t`, `/broadcast m` and `/shutdown` become `QUIT:username`, `RENAME:X`, `/stats`, `KICK:t`, `BROADCAST:m` and `SHUTDOWN:`; at the server each has exactly the chat effect (only the sender's `lastSeen` changes, every client receives `name: wire`), so nothing is removed, renamed, reported or stopped |

## Left out

- Socket I/O: `ListenUDP`, the `ReadFromUDP` loop and the real `WriteToUDP` calls (`server.go:25-39`). A sent datagram is appended to `outbox`, and a failed write is not modelled.
- The 1024-byte receive buffer (`server.go:31`): longer datagrams would be truncated by the socket. Messages are modelled as whole strings.
- Bytes vs characters: Go strings are byte strings; the model uses `seq<char>`. Every prefix and separator the code tests is ASCII, so positions agree.
- The mutex (`server.go:40`, `server.go:113`): the whole handler is one critical section, so the model is sequential.
- Time: `time.Now()` is the integer parameter `now`. The code never computes with `lastSeen`.
- Client records are values in the map, not `*Client` pointers. The pointer updates at `server.go:43` and `server.go:65-66` become map updates, which is equivalent because no one else holds the pointer.
- Map iteration order is not modelled. Any remaining entry may be picked next, and the ordering of datagrams within one batch is left unspecified.
- Client goroutines, the `WaitGroup`, the shutdown channel, read deadlines and the receive loop (`client.go:45-92`, `client.go:140-142`): concurrency and I/O. `Translate` returns what the switch does with one line.
- Terminal rendering: ANSI colour codes around the local messages, the prompt and the connect banner (`client.go:37-43`, `client.go:72-74`, `client.go:146-148`). Local error messages are modelled without their colour escapes.
- main.go: argument-count checks and dispatch only; it is not part of this model.
- benchmark_test.go: timing measurements against functions that `server.go` does not define; it is not part of this model.
- Client.HelpShowsAdminCommandsIffAdmin: the if-and-only-if for all four admin commands is proved over the list of entries shown, and `HelpListsShownCommands` proves that each shown entry's line is in the text. At the level of the text itself, the admin section as a whole (`AdminSectionIffAdmin`) and `/kick` (`HelpText`) are proved absent from a non-admin's help; `/menu`, `/broadcast` and `/shutdown` on their own are not.
- Client.Translate: the contract states the direction "stops after sending only for `/quit` or the admin's `/shutdown`"; the other direction is `RenameQuitShutdownTranslation`.
- Client.HelpText: the model is the string passed to `fmt.Println`; the final newline that `Println` adds is output, not part of the value.
