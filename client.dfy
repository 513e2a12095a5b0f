/** The terminal client's decision logic: the registration message it
    sends first, and the translation of each line the operator types
    into what the client does with it. */
module Client {
  import opened Text
  import opened Wire

  /** The next thing read from standard input: a line, or end of input. */
  datatype Input = Line(text: string) | EndOfInput

  /** What the client does with one input. */
  datatype Action =
    | Send(wire: string)            // write `wire` to the server
    | SendAndStop(wire: string)     // write `wire`, then shut the client down
    | ShowHelp(help: string)        // print the help text locally
    | ShowError(message: string)    // print a local error message
    | Stop                          // shut the client down

  /** The message the client registers with: the username after the
      registration prefix, which stripping the prefix recovers. */
  function RegisterMessage(username: string): (wire: string)
    ensures HasPrefix(wire, RegisterPrefix) && TrimPrefix(wire, RegisterPrefix) == username
  {
    RegisterPrefix + username
  }

  const UsageMessage := "Usage: /whisper username message"
  const InvalidMessage := "Invalid command. Type /help for available commands"

  /** One line of the help: the usage column (padded as printed) and what
      the command does. */
  datatype HelpEntry = HelpEntry(usage: string, summary: string)

  /** The commands every user is shown. */
  const UserCommands := [
    HelpEntry("/help               ", "Show this help message"),
    HelpEntry("/users              ", "List online users"),
    HelpEntry("/stats              ", "Show server statistics"),
    HelpEntry("/quit               ", "Exit the chat"),
    HelpEntry("/rename <newname>   ", "Change your username"),
    HelpEntry("/whisper <user> <msg> ", "Send private message")
  ]

  /** The commands only the admin is shown. */
  const AdminCommands := [
    HelpEntry("/menu               ", "Show admin menu"),
    HelpEntry("/kick <username>    ", "Remove a user"),
    HelpEntry("/broadcast <msg>    ", "Server announcement"),
    HelpEntry("/shutdown           ", "Shutdown server")
  ]

  /** The printed line of one entry. */
  function EntryLine(e: HelpEntry): string {
    e.usage + "- " + e.summary + "\n"
  }

  function HelpLines(entries: seq<HelpEntry>): string {
    if entries == [] then "" else EntryLine(entries[0]) + HelpLines(entries[1..])
  }

  /** Every entry's line appears in the block listing the entries. */
  lemma {:induction false} HelpLinesList(entries: seq<HelpEntry>, i: nat)
    requires i < |entries|
    ensures Occurs(EntryLine(entries[i]), HelpLines(entries))
  {
    if i == 0 {
      OccursIn("", EntryLine(entries[0]), HelpLines(entries[1..]));
      assert "" + EntryLine(entries[0]) + HelpLines(entries[1..]) == HelpLines(entries);
    } else {
      HelpLinesList(entries[1..], i - 1);
      OccursAfter(EntryLine(entries[i]), EntryLine(entries[0]), HelpLines(entries[1..]));
    }
  }

  /** The heading of a block of the help. The help is a Go raw string, so
      the `\033` escapes around the title appear literally, backslash
      included. */
  function SectionHead(title: string): string {
    "\n" + "\\033[1m" + title + "\\033[0m\n"
  }

  /** A titled block of the help. */
  function HelpSection(title: string, entries: seq<HelpEntry>): string {
    SectionHead(title) + HelpLines(entries)
  }

  const UserSection := HelpSection("Available Commands:", UserCommands)
  const AdminSection := HelpSection("Admin Commands:", AdminCommands)

  /** The entries `printHelp(isAdmin)` shows, in order. */
  function ShownCommands(isAdmin: bool): seq<HelpEntry> {
    UserCommands + (if isAdmin then AdminCommands else [])
  }

  /** `printHelp(isAdmin)`: the text it hands to `fmt.Println`, which adds
      one final newline. Everyone gets the common section first; the
      admin section, the only place `/kick` is mentioned, follows it
      exactly for the admin. */
  function HelpText(isAdmin: bool): (help: string)
    ensures HasPrefix(help, UserSection)
    ensures Occurs("/kick", help) <==> isAdmin
  {
    CommonHelpOmitsKick();
    AdminHelpMentionsKick();
    assert UserSection[..|UserSection|] == UserSection;
    if isAdmin then UserSection + AdminSection else UserSection
  }

  /** `/kick` is nowhere in the common section. */
  lemma CommonHelpOmitsKick()
    ensures !Occurs("/kick", UserSection)
  {
    UserSectionLacksK();
    AbsentCharExcludes("/kick", UserSection, 'k');
  }

  /** `/kick` is in the admin section, so in the admin's help. */
  lemma AdminHelpMentionsKick()
    ensures Occurs("/kick", UserSection + AdminSection)
    ensures HasPrefix(UserSection + AdminSection, UserSection)
  {
    AdminSectionMentionsKick();
    OccursAfter("/kick", UserSection, AdminSection);
    assert (UserSection + AdminSection)[..|UserSection|] == UserSection;
  }

  /** The admin section, as one block, is in the help exactly for the
      admin: a non-admin's help cannot contain it, since it would bring
      `/kick` along. */
  lemma AdminSectionIffAdmin(isAdmin: bool)
    ensures Occurs(AdminSection, HelpText(isAdmin)) <==> isAdmin
  {
    if isAdmin {
      OccursIn(UserSection, AdminSection, "");
      assert UserSection + AdminSection + "" == HelpText(isAdmin);
    } else if Occurs(AdminSection, HelpText(false)) {
      AdminSectionMentionsKick();
      OccursWithin("/kick", AdminSection, HelpText(false));
      assert false;
    }
  }

  /** The printed help holds the line of every entry shown to the user. */
  lemma HelpListsShownCommands(isAdmin: bool, i: nat)
    requires i < |ShownCommands(isAdmin)|
    ensures Occurs(EntryLine(ShownCommands(isAdmin)[i]), HelpText(isAdmin))
  {
    var line := EntryLine(ShownCommands(isAdmin)[i]);
    if i < |UserCommands| {
      HelpLinesList(UserCommands, i);
      OccursAfter(line, SectionHead("Available Commands:"), HelpLines(UserCommands));
      if isAdmin {
        OccursBefore(line, UserSection, AdminSection);
      }
    } else {
      HelpLinesList(AdminCommands, i - |UserCommands|);
      OccursAfter(line, SectionHead("Admin Commands:"), HelpLines(AdminCommands));
      OccursAfter(line, UserSection, AdminSection);
    }
  }

  /** The admin section lists `/kick`. */
  lemma AdminSectionMentionsKick()
    ensures Occurs("/kick", AdminSection)
  {
    var e := AdminCommands[1];
    assert e.usage == "/kick" + " <username>    ";
    OccursIn("", "/kick", " <username>    ");
    assert "" + "/kick" + " <username>    " == e.usage;
    OccursBefore("/kick", e.usage, "- ");
    OccursBefore("/kick", e.usage + "- ", e.summary);
    OccursBefore("/kick", e.usage + "- " + e.summary, "\n");
    HelpLinesList(AdminCommands, 1);
    OccursWithin("/kick", EntryLine(e), HelpLines(AdminCommands));
    OccursAfter("/kick", SectionHead("Admin Commands:"), HelpLines(AdminCommands));
  }

  /** There is no `k` anywhere in the section every user sees. */
  lemma UserSectionLacksK()
    ensures 'k' !in UserSection
  {
    forall i | 0 <= i < |UserCommands|
      ensures 'k' !in EntryLine(UserCommands[i])
    {
      UserEntriesLackK();
      HelpPunctuationLacksK();
    }
    HelpLinesLack(UserCommands, 'k');
    HelpPunctuationLacksK();
  }

  lemma UserEntriesLackK()
    ensures forall i :: 0 <= i < |UserCommands| ==>
      'k' !in UserCommands[i].usage && 'k' !in UserCommands[i].summary
  {
    FirstEntriesLackK();
    MiddleEntriesLackK();
    LastEntriesLackK();
  }

  lemma FirstEntriesLackK()
    ensures 'k' !in "/help               " && 'k' !in "Show this help message"
    ensures 'k' !in "/users              " && 'k' !in "List online users"
  {
  }

  lemma MiddleEntriesLackK()
    ensures 'k' !in "/stats              " && 'k' !in "Show server statistics"
    ensures 'k' !in "/quit               " && 'k' !in "Exit the chat"
  {
  }

  lemma LastEntriesLackK()
    ensures 'k' !in "/rename <newname>   " && 'k' !in "Change your username"
    ensures 'k' !in "/whisper <user> <msg> " && 'k' !in "Send private message"
  {
  }

  lemma HelpPunctuationLacksK()
    ensures 'k' !in "- " && 'k' !in "\n" && 'k' !in "\\033[1m" && 'k' !in "\\033[0m\n"
    ensures 'k' !in "Available Commands:"
  {
  }

  /** A character in no entry's line is in no line of the block. */
  lemma {:induction false} HelpLinesLack(entries: seq<HelpEntry>, c: char)
    requires forall i :: 0 <= i < |entries| ==> c !in EntryLine(entries[i])
    ensures c !in HelpLines(entries)
  {
    if entries != [] {
      HelpLinesLack(entries[1..], c);
      assert EntryLine(entries[0]) + HelpLines(entries[1..]) == HelpLines(entries);
    }
  }

  /** Whether the help shows an entry for the command `name`. */
  predicate Shows(isAdmin: bool, name: string) {
    exists i :: 0 <= i < |ShownCommands(isAdmin)| && HasPrefix(ShownCommands(isAdmin)[i].usage, name)
  }

  /** The help always shows the commands open to everyone, and shows
      `/menu`, `/kick`, `/broadcast` and `/shutdown` exactly for the admin. */
  lemma HelpShowsAdminCommandsIffAdmin(isAdmin: bool)
    ensures Shows(isAdmin, "/help") && Shows(isAdmin, "/users") && Shows(isAdmin, "/stats")
    ensures Shows(isAdmin, "/quit") && Shows(isAdmin, "/rename") && Shows(isAdmin, "/whisper")
    ensures Shows(isAdmin, "/menu") <==> isAdmin
    ensures Shows(isAdmin, "/kick") <==> isAdmin
    ensures Shows(isAdmin, "/broadcast") <==> isAdmin
    ensures Shows(isAdmin, "/shutdown") <==> isAdmin
  {
    UserEntriesShown(isAdmin);
    if isAdmin {
      AdminEntriesShown();
    } else {
      NoUserEntryIsAdminOnly();
    }
  }

  lemma AdminEntriesShown()
    ensures Shows(true, "/menu") && Shows(true, "/kick")
    ensures Shows(true, "/broadcast") && Shows(true, "/shutdown")
  {
    var shown := ShownCommands(true);
    assert shown[6..] == AdminCommands;
    assert HasPrefix(shown[6].usage, "/menu");
    assert HasPrefix(shown[7].usage, "/kick");
    assert HasPrefix(shown[8].usage, "/broadcast");
    assert HasPrefix(shown[9].usage, "/shutdown");
  }

  lemma UserEntriesShown(isAdmin: bool)
    ensures Shows(isAdmin, "/help") && Shows(isAdmin, "/users") && Shows(isAdmin, "/stats")
    ensures Shows(isAdmin, "/quit") && Shows(isAdmin, "/rename") && Shows(isAdmin, "/whisper")
  {
    var shown := ShownCommands(isAdmin);
    assert shown[..6] == UserCommands;
    assert HasPrefix(shown[0].usage, "/help");
    assert HasPrefix(shown[1].usage, "/users");
    assert HasPrefix(shown[2].usage, "/stats");
    assert HasPrefix(shown[3].usage, "/quit");
    assert HasPrefix(shown[4].usage, "/rename");
    assert HasPrefix(shown[5].usage, "/whisper");
  }

  /** No entry shown to everyone names an admin-only command. */
  lemma NoUserEntryIsAdminOnly()
    ensures !Shows(false, "/menu") && !Shows(false, "/kick")
    ensures !Shows(false, "/broadcast") && !Shows(false, "/shutdown")
  {
    assert ShownCommands(false) == UserCommands;
    forall i | 0 <= i < |UserCommands|
      ensures !HasPrefix(UserCommands[i].usage, "/menu") && !HasPrefix(UserCommands[i].usage, "/kick")
      ensures !HasPrefix(UserCommands[i].usage, "/broadcast") && !HasPrefix(UserCommands[i].usage, "/shutdown")
    {
      var u := UserCommands[i].usage;
      assert u[1] in {'h', 'u', 's', 'q', 'r', 'w'};
      DiffersAt(u, "/menu", 1);
      DiffersAt(u, "/kick", 1);
      DiffersAt(u, "/broadcast", 1);
      if u[1] == 's' {
        assert u[2] == 't';
        DiffersAt(u, "/shutdown", 2);
      } else {
        DiffersAt(u, "/shutdown", 1);
      }
    }
  }

  /** The input-line switch of the client's input loop, its cases in the
      order the code tries them. Only end of input stops without sending;
      only `/quit` and the admin's `/shutdown` may send and then stop
      (that they do is `RenameQuitShutdownTranslation`); only `/help`
      shows the help. */
  function Translate(input: Input, username: string): (r: Action)
    ensures r == Stop <==> input == EndOfInput
    ensures r.SendAndStop? ==> input == Line("/quit") || (input == Line("/shutdown") && username == "admin")
    ensures r.SendAndStop? ==> r.wire == "QUIT:" + username || r.wire == "SHUTDOWN:"
    ensures r.ShowHelp? <==> input == Line("/help")
    ensures r.ShowError? ==> r.message == UsageMessage || r.message == InvalidMessage
  {
    match input
    case EndOfInput => Stop
    case Line(text) =>
      if text == "/quit" then SendAndStop("QUIT:" + username)
      else if text == "/help" then ShowHelp(HelpText(username == "admin"))
      else if text == "/menu" && username == "admin" then Send("/menu")
      else if HasPrefix(text, "/rename ") then Send("RENAME:" + TrimPrefix(text, "/rename "))
      else if text == "/users" then Send("/users")
      else if text == "/stats" then Send("/stats")
      else if HasPrefix(text, "/whisper ") then
        var parts := SplitN2(TrimPrefix(text, "/whisper "), ' ');
        if |parts| == 2 then Send(WhisperPrefix + parts[0] + ":" + parts[1]) else ShowError(UsageMessage)
      else if HasPrefix(text, "/kick ") && username == "admin" then
        Send("KICK:" + TrimPrefix(text, "/kick "))
      else if HasPrefix(text, "/broadcast ") && username == "admin" then
        Send("BROADCAST:" + TrimPrefix(text, "/broadcast "))
      else if text == "/shutdown" && username == "admin" then SendAndStop("SHUTDOWN:")
      else if HasPrefix(text, "/") then ShowError(InvalidMessage)
      else Send(text)
  }

  /** End of standard input stops the client without sending anything. */
  lemma EndOfInputStops(username: string)
    ensures Translate(EndOfInput, username) == Stop
  {
  }

  /** A line that does not start with `/` is sent verbatim. */
  lemma PlainLineSentVerbatim(text: string, username: string)
    requires !HasPrefix(text, "/")
    ensures Translate(Line(text), username) == Send(text)
  {
    if |text| >= 1 {
      assert text[0] != '/';
      DiffersAt(text, "/quit", 0);
      DiffersAt(text, "/help", 0);
      DiffersAt(text, "/menu", 0);
      DiffersAt(text, "/rename ", 0);
      DiffersAt(text, "/users", 0);
      DiffersAt(text, "/stats", 0);
      DiffersAt(text, "/whisper ", 0);
      DiffersAt(text, "/kick ", 0);
      DiffersAt(text, "/broadcast ", 0);
      DiffersAt(text, "/shutdown", 0);
    }
  }

  /** `text`, whose second character is `c`, is none of the commands whose
      second character differs. */
  lemma NotCommandsBefore(text: string, c: char)
    requires |text| >= 2 && text[1] == c
    ensures c != 'q' ==> !HasPrefix(text, "/quit") && text != "/quit"
    ensures c != 'h' ==> text != "/help"
    ensures c != 'm' ==> text != "/menu"
    ensures c != 'r' ==> !HasPrefix(text, "/rename ")
    ensures c != 'u' ==> text != "/users"
    ensures c != 's' ==> text != "/stats"
    ensures c != 'w' ==> !HasPrefix(text, "/whisper ")
    ensures c != 'k' ==> !HasPrefix(text, "/kick ")
    ensures c != 'b' ==> !HasPrefix(text, "/broadcast ")
  {
    if c != 'q' { DiffersAt(text, "/quit", 1); }
    if c != 'h' { DiffersAt(text, "/help", 1); }
    if c != 'm' { DiffersAt(text, "/menu", 1); }
    if c != 'r' { DiffersAt(text, "/rename ", 1); }
    if c != 'u' { DiffersAt(text, "/users", 1); }
    if c != 's' { DiffersAt(text, "/stats", 1); }
    if c != 'w' { DiffersAt(text, "/whisper ", 1); }
    if c != 'k' { DiffersAt(text, "/kick ", 1); }
    if c != 'b' { DiffersAt(text, "/broadcast ", 1); }
  }

  /** `/whisper u m` becomes `WHISPER:u:m`, split at the first space after
      the command; with no second space it is a local usage error and
      nothing is sent. */
  lemma WhisperTranslation(u: string, m: string, username: string)
    requires ' ' !in u
    ensures Translate(Line("/whisper " + u + " " + m), username) == Send(WhisperPrefix + u + ":" + m)
    ensures Translate(Line("/whisper " + u), username) == ShowError(UsageMessage)
  {
    var rest := u + [' '] + m;
    assert "/whisper " + u + " " + m == "/whisper " + rest;
    WhisperLine("/whisper " + rest, rest, username);
    SplitJoined(u, ' ', m);
    WhisperLine("/whisper " + u, u, username);
  }

  /** A `/whisper ` line is translated from the split of what follows the
      command. */
  lemma WhisperLine(text: string, rest: string, username: string)
    requires text == "/whisper " + rest
    ensures var parts := SplitN2(rest, ' ');
      Translate(Line(text), username)
        == if |parts| == 2 then Send(WhisperPrefix + parts[0] + ":" + parts[1]) else ShowError(UsageMessage)
  {
    assert HasPrefix(text, "/whisper ") && TrimPrefix(text, "/whisper ") == rest;
    NotCommandsBefore(text, 'w');
  }

  /** `/rename X` becomes `RENAME:X`; `/quit` sends `QUIT:<username>` and
      stops; the admin's `/shutdown` sends `SHUTDOWN:` and stops. */
  lemma RenameQuitShutdownTranslation(newName: string, username: string)
    ensures Translate(Line("/rename " + newName), username) == Send("RENAME:" + newName)
    ensures Translate(Line("/quit"), username) == SendAndStop("QUIT:" + username)
    ensures username == "admin" ==> Translate(Line("/shutdown"), username) == SendAndStop("SHUTDOWN:")
  {
    var text := "/rename " + newName;
    assert HasPrefix(text, "/rename ") && text[|"/rename "|..] == newName;
    NotCommandsBefore(text, 'r');
    NotCommandsBefore("/shutdown", 's');
    DiffersAt("/shutdown", "/stats", 2);
  }

  /** `/users` and `/stats` go to the server unchanged, for every user. */
  lemma UsersStatsTranslation(username: string)
    ensures Translate(Line("/users"), username) == Send("/users")
    ensures Translate(Line("/stats"), username) == Send("/stats")
  {
  }

  /** `/help` is answered locally, with the admin section for the admin. */
  lemma HelpIsLocal(username: string)
    ensures Translate(Line("/help"), username) == ShowHelp(HelpText(username == "admin"))
  {
  }

  /** `/menu`, `/kick `, `/broadcast ` and `/shutdown` reach the server only
      from the admin; anyone else gets "Invalid command" and nothing is sent. */
  lemma AdminCommandsTranslation(rest: string, username: string)
    ensures Translate(Line("/menu"), username)
      == if username == "admin" then Send("/menu") else ShowError(InvalidMessage)
    ensures Translate(Line("/kick " + rest), username)
      == if username == "admin" then Send("KICK:" + rest) else ShowError(InvalidMessage)
    ensures Translate(Line("/broadcast " + rest), username)
      == if username == "admin" then Send("BROADCAST:" + rest) else ShowError(InvalidMessage)
    ensures Translate(Line("/shutdown"), username)
      == if username == "admin" then SendAndStop("SHUTDOWN:") else ShowError(InvalidMessage)
  {
    var kick := "/kick " + rest;
    assert HasPrefix(kick, "/kick ") && kick[|"/kick "|..] == rest;
    assert HasPrefix(kick, "/");
    NotCommandsBefore(kick, 'k');
    var bc := "/broadcast " + rest;
    assert HasPrefix(bc, "/broadcast ") && bc[|"/broadcast "|..] == rest;
    assert HasPrefix(bc, "/");
    NotCommandsBefore(bc, 'b');
    assert HasPrefix("/menu", "/") && HasPrefix("/shutdown", "/");
    NotCommandsBefore("/menu", 'm');
    NotCommandsBefore("/shutdown", 's');
    DiffersAt("/shutdown", "/stats", 2);
  }

  /** An operator line starting with `/` that matches no command sends
      nothing. */
  lemma UnknownCommandSendsNothing(text: string, username: string)
    requires HasPrefix(text, "/")
    requires text !in {"/quit", "/help", "/menu", "/users", "/stats", "/shutdown"}
    requires !HasPrefix(text, "/rename ") && !HasPrefix(text, "/whisper ")
    requires !HasPrefix(text, "/kick ") && !HasPrefix(text, "/broadcast ")
    ensures Translate(Line(text), username) == ShowError(InvalidMessage)
  {
  }
}
