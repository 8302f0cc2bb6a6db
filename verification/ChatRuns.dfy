/** Whole runs of the chat server's event loop. */
module ChatRuns {
  import opened ChatCommon
  import opened ChatQueue
  import opened ChatServer

  const GREETING: seq<string> := ["Hello from server!\n", "Enter '\\help' for a list of commands.\n"]

  /** `server_process_alias` with its reply. */
  function NameClient(s: Server, fd: nat, alias: string, taken: nat): (r: Server)
    requires Sized(s) && fd < FD_SETSIZE
    ensures Sized(r)
  {
    Tell(SetAlias(s, fd, alias), fd, AliasReply(Judge(s, fd, alias), alias), taken)
  }

  /** `server_accept_client`. */
  function Welcome(s: Server, nfd: nat, addr: string, taken: nat): (r: Server)
    requires Sized(s) && nfd < FD_SETSIZE
    ensures Sized(r)
  {
    Tell(Accept(s, nfd, addr), nfd, GREETING, taken)
  }

  /** What the loop can be told: a connection on a fresh descriptor, a lost client, an alias command, a
      private message, or any other output to a client (help, who, cow and broadcast only do that). */
  datatype Event =
    | Connect(fd: nat, addr: string, taken: nat)
    | Leave(fd: nat)
    | Name(fd: nat, alias: string, taken: nat)
    | Private(fd: nat, line: string, taken: nat, takenTo: nat)
    | Output(fd: nat, fragments: seq<string>, taken: nat)

  predicate Possible(s: Server, e: Event) {
    && Sized(s) && 0 < e.fd < FD_SETSIZE
    && match e
       case Connect(fd, _, _) => fd !in s.fds
       case Name(fd, alias, _) => s.clients[fd].active && alias != ""
       case Private(fd, line, _, _) => s.clients[fd].active && line != ""
       case _ => s.clients[e.fd].active
  }

  function Do(s: Server, e: Event): (r: Server)
    requires Possible(s, e)
    ensures Sized(r)
  {
    match e
    case Connect(fd, addr, taken) => Welcome(s, fd, addr, taken)
    case Leave(fd) => Disconnect(s, fd)
    case Name(fd, alias, taken) => NameClient(s, fd, alias, taken)
    case Private(fd, line, taken, takenTo) => Whisper(s, fd, line, taken, takenTo).0
    case Output(fd, fragments, taken) => Tell(s, fd, fragments, taken)
  }

  lemma WhisperOk(s: Server, listener: nat, fd: nat, line: string, taken: nat, takenTo: nat)
    requires Ok(s, listener) && fd < FD_SETSIZE && fd != listener && line != ""
    ensures Ok(Whisper(s, fd, line, taken, takenTo).0, listener)
  {
    var (name, msg) := Parse(line);
    var to := Scan(s, fd, name, 0);
    ScanComplete(s, listener, fd, name, 0);
    if to < 0 {
      TellOk(s, listener, fd, ["<Server @ cmd>: Alias not found."], taken);
    } else if msg.Message? {
      var own := [Repr(s, fd), " (-> ", Repr(s, to), "): ", msg.text];
      TellOk(s, listener, fd, own, taken);
      var s1 := Tell(s, fd, own, taken);
      TellOk(s1, listener, to, [Repr(s1, fd), " [priv] :", msg.text], takenTo);
    }
  }

  lemma DoOk(s: Server, listener: nat, e: Event)
    requires Ok(s, listener) && Possible(s, e)
    ensures Ok(Do(s, e), listener)
  {
    match e
    case Connect(fd, addr, taken) =>
      AcceptOk(s, listener, fd, addr);
      TellOk(Accept(s, fd, addr), listener, fd, GREETING, taken);
    case Leave(fd) => DisconnectOk(s, listener, fd);
    case Name(fd, alias, taken) =>
      SetAliasOk(s, listener, fd, alias);
      TellOk(SetAlias(s, fd, alias), listener, fd, AliasReply(Judge(s, fd, alias), alias), taken);
    case Private(fd, line, taken, takenTo) => WhisperOk(s, listener, fd, line, taken, takenTo);
    case Output(fd, fragments, taken) => TellOk(s, listener, fd, fragments, taken);
  }

  /** The handler has run into undefined behaviour; nothing is claimed about what comes after. */
  predicate Breaks(s: Server, e: Event)
    requires Possible(s, e)
  {
    e.Private? && var how := Whisper(s, e.fd, e.line, e.taken, e.takenTo).1; how == NullMessage || how == SenderLost
  }

  predicate CanRun(s: Server, events: seq<Event>)
    decreases |events|
  {
    events == []
    || (Possible(s, events[0]) && (Breaks(s, events[0]) ==> |events| == 1) && CanRun(Do(s, events[0]), events[1..]))
  }

  function Run(s: Server, events: seq<Event>): (r: Server)
    requires CanRun(s, events)
    ensures Sized(s) ==> Sized(r)
    decreases |events|
  {
    if events == [] then s else Run(Do(s, events[0]), events[1..])
  }

  lemma {:induction false} RunOk(s: Server, listener: nat, events: seq<Event>)
    requires Ok(s, listener) && CanRun(s, events)
    ensures Ok(Run(s, events), listener)
    decreases |events|
  {
    if events != [] {
      DoOk(s, listener, events[0]);
      RunOk(Do(s, events[0]), listener, events[1..]);
    }
  }

  lemma TellQuiet(s: Server, fd: nat, fragments: seq<string>, taken: nat)
    requires Sized(s) && fd < FD_SETSIZE && Quiet(s)
    ensures Quiet(Tell(s, fd, fragments, taken))
  {
    QueueEachEffect(s, fd, fragments);
  }

  lemma WhisperQuiet(s: Server, fd: nat, line: string, taken: nat, takenTo: nat)
    requires Sized(s) && fd < FD_SETSIZE && line != "" && Quiet(s)
    ensures Quiet(Whisper(s, fd, line, taken, takenTo).0)
  {
    var (name, msg) := Parse(line);
    var to := Scan(s, fd, name, 0);
    if to < 0 {
      TellQuiet(s, fd, ["<Server @ cmd>: Alias not found."], taken);
    } else if msg.Message? {
      var own := [Repr(s, fd), " (-> ", Repr(s, to), "): ", msg.text];
      TellQuiet(s, fd, own, taken);
      var s1 := Tell(s, fd, own, taken);
      TellQuiet(s1, to, [Repr(s1, fd), " [priv] :", msg.text], takenTo);
    }
  }

  lemma NameQuiet(s: Server, fd: nat, alias: string, taken: nat)
    requires Sized(s) && fd < FD_SETSIZE && Quiet(s)
    ensures Quiet(NameClient(s, fd, alias, taken))
  {
    TellQuiet(SetAlias(s, fd, alias), fd, AliasReply(Judge(s, fd, alias), alias), taken);
  }

  /** Telling a client something changes nobody's address or alias; at most it loses the client. */
  lemma TellKeepsNames(s: Server, fd: nat, fragments: seq<string>, taken: nat)
    requires Sized(s) && fd < FD_SETSIZE
    ensures forall i :: 0 <= i < FD_SETSIZE ==> NamesKept(s.clients[i], Tell(s, fd, fragments, taken).clients[i])
  {
    QueueEachEffect(s, fd, fragments);
  }

  /** The client is known as before as long as it is connected. */
  predicate NamesKept(c: Client, c': Client) {
    && c'.addr == c.addr && (c'.active ==> c.active)
    && (c'.active ==> c'.hasAlias == c.hasAlias) && (c'.hasAlias ==> c.hasAlias && c'.alias == c.alias)
  }

  lemma WhisperKeepsNames(s: Server, fd: nat, line: string, taken: nat, takenTo: nat)
    requires Sized(s) && fd < FD_SETSIZE && line != ""
    ensures forall i :: 0 <= i < FD_SETSIZE ==>
              NamesKept(s.clients[i], Whisper(s, fd, line, taken, takenTo).0.clients[i])
  {
    var (name, msg) := Parse(line);
    var to := Scan(s, fd, name, 0);
    if to < 0 {
      TellKeepsNames(s, fd, ["<Server @ cmd>: Alias not found."], taken);
    } else if msg.Message? {
      var own := [Repr(s, fd), " (-> ", Repr(s, to), "): ", msg.text];
      TellKeepsNames(s, fd, own, taken);
      var s1 := Tell(s, fd, own, taken);
      TellKeepsNames(s1, to, [Repr(s1, fd), " [priv] :", msg.text], takenTo);
    } else {
      assert Whisper(s, fd, line, taken, takenTo) == (s, NullMessage);
    }
  }

  lemma NameKeepsNames(s: Server, fd: nat, alias: string, taken: nat)
    requires Sized(s) && fd < FD_SETSIZE
    ensures var s' := NameClient(s, fd, alias, taken);
            && (forall i :: 0 <= i < FD_SETSIZE && (i != fd || !Judge(s, fd, alias).Granted?) ==>
                  NamesKept(s.clients[i], s'.clients[i]))
            && (Judge(s, fd, alias).Granted? && s'.clients[fd].active ==>
                  s'.clients[fd].hasAlias && s'.clients[fd].alias == alias)
  {
    TellKeepsNames(SetAlias(s, fd, alias), fd, AliasReply(Judge(s, fd, alias), alias), taken);
  }

  /** What clients are known by: an event changes the address of a client only by connecting it, and an
      alias only by an alias command of the client itself that is granted. */
  lemma DoKeepsNames(s: Server, listener: nat, e: Event, i: nat)
    requires Ok(s, listener) && Possible(s, e) && i < FD_SETSIZE
    ensures var c, c' := s.clients[i], Do(s, e).clients[i];
            && (e.Connect? && e.fd == i ==> c'.addr == e.addr && !c'.hasAlias)
            && (e.Name? && e.fd == i && Judge(s, i, e.alias).Granted? && c'.active ==>
                  c'.hasAlias && c'.alias == e.alias)
            && (e.fd != i || e.Private? || e.Output? || (e.Name? && !Judge(s, i, e.alias).Granted?) ==> NamesKept(c, c'))
  {
    match e
    case Connect(fd, addr, taken) => TellKeepsNames(Accept(s, fd, addr), fd, GREETING, taken);
    case Leave(fd) =>
    case Name(fd, alias, taken) => NameKeepsNames(s, fd, alias, taken);
    case Private(fd, line, taken, takenTo) => WhisperKeepsNames(s, fd, line, taken, takenTo);
    case Output(fd, fragments, taken) => TellKeepsNames(s, fd, fragments, taken);
  }

  /** The answer to an alias command, by the first reason that applies. */
  ghost function AliasAnswer(s: Server, fd: nat, alias: string): string
    requires fd < |s.clients|
  {
    if s.clients[fd].hasAlias then "<Server alias cmd>: You have already set an alias."
    else if |alias| > 15 then "<Server alias cmd>: Sorry, this alias is too long (max 32 chars)."
    else if exists i :: 0 <= i < |alias| && !AllowedChar(alias[i])
    then "<Server alias cmd>: Sorry, this alias contains invalid chars (allowed: a-zA-Z0-9_-)."
    else if exists i: nat :: Holder(s, fd, alias, i) then "<Server alias cmd>: Sorry, this alias is already in use."
    else "<Server alias cmd>: OK, alias set to " + alias + "."
  }

  lemma JudgedFor(s: Server, listener: nat, fd: nat, alias: string)
    requires Ok(s, listener) && fd < FD_SETSIZE && alias != ""
    ensures match Judge(s, fd, alias)
            case AlreadySet => s.clients[fd].hasAlias
            case TooLong => !s.clients[fd].hasAlias && |alias| > 15
            case BadChar =>
              !s.clients[fd].hasAlias && |alias| <= 15 && exists i :: 0 <= i < |alias| && !AllowedChar(alias[i])
            case InUse => !s.clients[fd].hasAlias && LegalAlias(alias) && exists i: nat :: Holder(s, fd, alias, i)
            case Granted => !s.clients[fd].hasAlias && LegalAlias(alias) && forall i: nat :: !Holder(s, fd, alias, i)
  {
    ScanComplete(s, listener, fd, alias, 0);
  }

  lemma RefusalFits(v: Verdict, alias: string)
    requires !v.Granted?
    ensures Concat(AliasReply(v, alias)) == AliasReply(v, alias)[0] && 0 < |AliasReply(v, alias)[0]| < 100
  {
    ConcatOne(AliasReply(v, alias)[0]);
  }

  lemma GrantFits(alias: string)
    requires |alias| <= 15
    ensures Concat(AliasReply(Granted, alias)) == "<Server alias cmd>: OK, alias set to " + alias + "."
    ensures 0 < |Concat(AliasReply(Granted, alias))| < 100
  {
    ConcatThree("<Server alias cmd>: OK, alias set to ", alias, ".");
  }

  lemma ReplyIsAnswer(s: Server, listener: nat, fd: nat, alias: string)
    requires Ok(s, listener) && fd < FD_SETSIZE && alias != ""
    ensures Concat(AliasReply(Judge(s, fd, alias), alias)) == AliasAnswer(s, fd, alias)
    ensures 0 < |AliasAnswer(s, fd, alias)| < 100
  {
    JudgedFor(s, listener, fd, alias);
    if Judge(s, fd, alias).Granted? {
      GrantFits(alias);
    } else {
      RefusalFits(Judge(s, fd, alias), alias);
    }
  }

  lemma NameClientTells(s: Server, fd: nat, alias: string, text: string, taken: nat)
    requires Sized(s) && fd < FD_SETSIZE && s.clients[fd].active && s.clients[fd].queued == "" && taken >= INIT_QSIZ
    requires text == Concat(AliasReply(Judge(s, fd, alias), alias)) && 0 < |text| < INIT_QSIZ
    ensures var was, c := SetAlias(s, fd, alias), SetAlias(s, fd, alias).clients[fd];
            NameClient(s, fd, alias, taken)
            == was.(clients := was.clients[fd := c.(wire := c.wire + FlushWire(text))])
  {
    TextReaches(SetAlias(s, fd, alias), fd, AliasReply(Judge(s, fd, alias), alias), text, taken);
  }

  lemma AliasAnsweredWith(s: Server, listener: nat, fd: nat, alias: string, taken: nat) returns (text: string)
    requires Ok(s, listener) && Quiet(s) && fd < FD_SETSIZE && s.clients[fd].active && alias != ""
    requires taken >= INIT_QSIZ
    ensures text == AliasAnswer(s, fd, alias)
    ensures var was, c := SetAlias(s, fd, alias), SetAlias(s, fd, alias).clients[fd];
            NameClient(s, fd, alias, taken)
            == was.(clients := was.clients[fd := c.(wire := c.wire + FlushWire(text))])
  {
    text := Concat(AliasReply(Judge(s, fd, alias), alias));
    ReplyIsAnswer(s, listener, fd, alias);
    NameClientTells(s, fd, alias, text, taken);
  }

  /** The answer that an alias command sends, on a socket that takes it. */
  lemma AliasAnswered(s: Server, listener: nat, fd: nat, alias: string, taken: nat)
    requires Ok(s, listener) && Quiet(s) && fd < FD_SETSIZE && s.clients[fd].active && alias != ""
    requires taken >= INIT_QSIZ
    ensures NameClient(s, fd, alias, taken).clients[fd].wire
         == s.clients[fd].wire + FlushWire(AliasAnswer(s, fd, alias))
  {
    var text := AliasAnsweredWith(s, listener, fd, alias, taken);
  }

  /** What an alias command changes: the client's own alias, to the very one asked for, when it has
      none, the alias is legal, and it begins no other client's. */
  lemma AliasCommand(s: Server, listener: nat, fd: nat, alias: string, taken: nat)
    requires Ok(s, listener) && Quiet(s) && fd < FD_SETSIZE && s.clients[fd].active && alias != ""
    requires taken >= INIT_QSIZ
    ensures var s', c := NameClient(s, fd, alias, taken), s.clients[fd];
            var granted := !c.hasAlias && LegalAlias(alias) && forall i: nat :: !Holder(s, fd, alias, i);
            && s'.clients[fd].hasAlias == (c.hasAlias || granted)
            && s'.clients[fd].alias == (if granted then alias else c.alias)
            && s'.clients[fd].active && s'.clients[fd].addr == c.addr
            && forall i :: 0 <= i < FD_SETSIZE && i != fd ==> s'.clients[i] == s.clients[i]
  {
    GrantedExactly(s, listener, fd, alias);
    var text := AliasAnsweredWith(s, listener, fd, alias, taken);
  }

  lemma DoQuiet(s: Server, e: Event)
    requires Quiet(s) && Possible(s, e)
    ensures Quiet(Do(s, e))
  {
    match e
    case Connect(fd, addr, taken) => TellQuiet(Accept(s, fd, addr), fd, GREETING, taken);
    case Leave(fd) =>
    case Name(fd, alias, taken) => NameQuiet(s, fd, alias, taken);
    case Private(fd, line, taken, takenTo) => WhisperQuiet(s, fd, line, taken, takenTo);
    case Output(fd, fragments, taken) => TellQuiet(s, fd, fragments, taken);
  }

  /** Every handler flushes what it queues: between events of any run all queues are empty. */
  lemma {:induction false} RunQuiet(s: Server, events: seq<Event>)
    requires Quiet(s) && CanRun(s, events)
    ensures Quiet(Run(s, events))
    decreases |events|
  {
    if events != [] {
      DoQuiet(s, events[0]);
      RunQuiet(Do(s, events[0]), events[1..]);
    }
  }

  /** Routing after any run of the server: what a private message does, for every legal name. */
  lemma {:induction false} WhisperInRun(listener: nat, events: seq<Event>, fd: nat, name: string, text: string,
                                        taken: nat, takenTo: nat)
    requires 0 < listener < FD_SETSIZE && CanRun(Start(listener), events)
    requires fd < FD_SETSIZE && Run(Start(listener), events).clients[fd].active && LegalAlias(name)
    requires (text == "" || text[0] == ' ') && taken >= INIT_QSIZ && takenTo >= INIT_QSIZ
    ensures var s := Run(Start(listener), events);
            var (s', how) := Whisper(s, fd, "@" + name + text, taken, takenTo);
            && (how == NotFound <==> forall i: nat :: !Holder(s, fd, name, i))
            && (how != NotFound ==> how.Delivered? && Holder(s, fd, name, how.to))
            && (how != NotFound ==>
                 (forall i: nat :: Holder(s, fd, name, i) ==> how.to <= i)
                 && s'.clients[fd].wire == s.clients[fd].wire
                                         + Sent(OwnCopy(Repr(s, fd), s.clients[how.to].alias, text))
                 && s'.clients[how.to].wire == s.clients[how.to].wire + Sent(TheirCopy(Repr(s, fd), text))
                 && forall i: nat :: i < FD_SETSIZE && i != fd && i != how.to ==> s'.clients[i] == s.clients[i])
  {
    var s := Run(Start(listener), events);
    StartOk(listener);
    RunOk(Start(listener), listener, events);
    RunQuiet(Start(listener), events);
    var to := Scan(s, fd, name, 0);
    ScanComplete(s, listener, fd, name, 0);
    if to < 0 {
      WhisperUnknown(s, listener, fd, name, text, taken, takenTo);
    } else {
      WhisperTo(s, listener, fd, name, to, text, taken, takenTo);
    }
  }

  /** A server flush is the buffer flush of `ChatQueue`: a series of write(2) results counts only by how
      many bytes it gets through. */
  lemma FlushIsTransfer(s: Server, fd: nat, results: seq<int>)
    requires fd < |s.clients| && s.clients[fd].active && s.clients[fd].queued != ""
    requires Progresses(results, |s.clients[fd].queued| + 1)
    ensures var c, (n, done) := s.clients[fd], Transfer(results, |s.clients[fd].queued| + 1);
            var c' := Flush(s, fd, n).clients[fd];
            c'.wire == c.wire + FlushWire(c.queued)[..n] && c'.active == done && c'.queued == ""
  {
    var w := FlushWire(s.clients[fd].queued);
    assert w[..|w|] == w;
  }

  /** The private-message handler runs into its null pointer exactly when the name is empty and some
      other client has an alias: the empty name begins every alias. */
  lemma NullMessageExactly(s: Server, listener: nat, fd: nat, line: string, taken: nat, takenTo: nat)
    requires Ok(s, listener) && fd < FD_SETSIZE && line != ""
    ensures Whisper(s, fd, line, taken, takenTo).1 == NullMessage <==>
            (|line| == 1 || line[1] == ' ') && exists i :: 0 <= i < FD_SETSIZE && i != fd && s.clients[i].hasAlias
  {
    var (name, msg) := Parse(line);
    ScanComplete(s, listener, fd, name, 0);
    if msg.NoMessage? {
      assert name == "";
      forall i: nat | i < FD_SETSIZE && i != fd && s.clients[i].hasAlias
        ensures Holder(s, fd, name, i)
      {
      }
    }
  }

  /** The greeting as it reaches the client: its last newline becomes a NUL. */
  lemma GreetingText()
    ensures var a, b := "Hello from server!\n", "Enter '\\help' for a list of commands.\n";
            Sent(GREETING) == a + b[..|b| - 1] + [NUL] + [NUL]
  {
    var a, b := GREETING[0], GREETING[1];
    ConcatOne(b);
    ConcatCons(a, [b]);
    assert [a] + [b] == GREETING;
    SentWhole(GREETING);
    assert (a + b)[..|a + b| - 1] == a + b[..|b| - 1];
  }

  /** A connection whose greeting gets through. */
  lemma Connected(s: Server, nfd: nat, addr: string)
    requires Sized(s) && nfd < FD_SETSIZE
    ensures var s' := Welcome(s, nfd, addr, INIT_QSIZ);
            && s'.fds == s.fds + {nfd} && s'.clients[nfd].active && !s'.clients[nfd].hasAlias
            && s'.clients[nfd].addr == addr && s'.clients[nfd].wire == Sent(GREETING)
            && forall i :: 0 <= i < FD_SETSIZE && i != nfd ==> s'.clients[i] == s.clients[i]
  {
    QueueStarts(GREETING[0], GREETING[1], []);
    assert [GREETING[0], GREETING[1]] + [] == GREETING;
    TellReaches(Accept(s, nfd, addr), nfd, GREETING, INIT_QSIZ);
  }

  lemma {:induction false} RunThree(s: Server, e0: Event, e1: Event, e2: Event)
    requires Possible(s, e0) && !Breaks(s, e0)
    requires var s1 := Do(s, e0); Possible(s1, e1) && !Breaks(s1, e1)
    requires var s2 := Do(Do(s, e0), e1); Possible(s2, e2) && !Breaks(s2, e2)
    ensures CanRun(s, [e0, e1, e2]) && Run(s, [e0, e1, e2]) == Do(Do(Do(s, e0), e1), e2)
  {
    var s1, s2, s3 := Do(s, e0), Do(Do(s, e0), e1), Do(Do(Do(s, e0), e1), e2);
    assert [e0, e1, e2][1..] == [e1, e2] && [e1, e2][1..] == [e2] && [e2][1..] == [];
    assert CanRun(s3, []) && Run(s3, []) == s3;
    assert CanRun(s2, [e2]) && Run(s2, [e2]) == s3;
    assert CanRun(s1, [e1, e2]) && Run(s1, [e1, e2]) == s3;
  }

  /** The first alias of all is granted and stays. */
  lemma FirstAlias(s: Server, listener: nat, fd: nat, alias: string)
    requires Ok(s, listener) && Quiet(s) && fd < FD_SETSIZE && s.clients[fd].active && LegalAlias(alias)
    requires forall i :: 0 <= i < FD_SETSIZE ==> !s.clients[i].hasAlias
    ensures var s' := NameClient(s, fd, alias, INIT_QSIZ);
            s'.clients[fd].hasAlias && forall i :: 0 <= i < FD_SETSIZE && i != fd ==> s'.clients[i] == s.clients[i]
  {
    GrantedExactly(s, listener, fd, alias);
    var reply := AliasReply(Granted, alias);
    QueueStarts(reply[0], reply[1], reply[2..]);
    assert [reply[0], reply[1]] + reply[2..] == reply;
    TellReaches(SetAlias(s, fd, alias), fd, reply, INIT_QSIZ);
  }

  lemma TwoConnected(s: Server, listener: nat, e0: Event, e1: Event)
    requires Ok(s, listener) && Quiet(s) && Possible(s, e0) && e0.Connect? && e0.taken == INIT_QSIZ
    requires 0 < e1.fd < FD_SETSIZE && e1.fd !in s.fds && e1.fd != e0.fd && e1.Connect? && e1.taken == INIT_QSIZ
    requires forall i :: 0 <= i < FD_SETSIZE ==> !s.clients[i].hasAlias
    ensures Possible(Do(s, e0), e1)
    ensures var s2 := Do(Do(s, e0), e1);
            && Ok(s2, listener) && Quiet(s2) && s2.clients[e0.fd].active && s2.clients[e1.fd].active
            && forall i :: 0 <= i < FD_SETSIZE ==> !s2.clients[i].hasAlias
  {
    Connected(s, e0.fd, e0.addr);
    DoOk(s, listener, e0);
    DoQuiet(s, e0);
    var s1 := Do(s, e0);
    Connected(s1, e1.fd, e1.addr);
    DoOk(s1, listener, e1);
    DoQuiet(s1, e1);
  }

  /** The null message can be reached: two clients connect, the first takes an alias, and the second
      sends "@" or "@ text". */
  lemma NullMessageReached(listener: nat, e0: Event, e1: Event, e2: Event, line: string)
    requires e0.Connect? && e1.Connect? && e2.Name? && e0.taken == e1.taken == e2.taken == INIT_QSIZ
    requires 0 < listener < FD_SETSIZE && 0 < e0.fd < FD_SETSIZE && 0 < e1.fd < FD_SETSIZE
    requires listener != e0.fd && e0.fd != e1.fd && e1.fd != listener
    requires e2.fd == e0.fd && LegalAlias(e2.alias)
    requires line == "@" || (|line| > 1 && line[1] == ' ')
    ensures CanRun(Start(listener), [e0, e1, e2])
    ensures var s := Run(Start(listener), [e0, e1, e2]);
            s.clients[e1.fd].active && Whisper(s, e1.fd, line, INIT_QSIZ, INIT_QSIZ).1 == NullMessage
  {
    var s0 := Start(listener);
    StartOk(listener);
    TwoConnected(s0, listener, e0, e1);
    var s2 := Do(Do(s0, e0), e1);
    FirstAlias(s2, listener, e2.fd, e2.alias);
    DoOk(s2, listener, e2);
    RunThree(s0, e0, e1, e2);
    NullMessageExactly(Do(s2, e2), listener, e1.fd, line, INIT_QSIZ, INIT_QSIZ);
  }

  /** One such run, and the line that ends it. */
  lemma NullMessageOnce() returns (events: seq<Event>)
    ensures CanRun(Start(3), events)
    ensures var s := Run(Start(3), events);
            s.clients[5].active && Whisper(s, 5, "@ hi", INIT_QSIZ, INIT_QSIZ).1 == NullMessage
  {
    var e0, e1, e2 := Connect(4, "", INIT_QSIZ), Connect(5, "", INIT_QSIZ), Name(4, "anna", INIT_QSIZ);
    events := [e0, e1, e2];
    NullMessageReached(3, e0, e1, e2, "@ hi");
  }

  /** After any run of events: `max` is the largest registered descriptor; every alias is legal and
      belongs to an active client; and no two clients hold aliases that are equal up to case. */
  lemma {:induction false} AliasesStayDistinct(listener: nat, events: seq<Event>)
    requires 0 < listener < FD_SETSIZE && CanRun(Start(listener), events)
    ensures var s := Run(Start(listener), events);
            && |s.clients| == 1024
            && s.max in s.fds && (forall f :: f in s.fds ==> f <= s.max)
            && (forall i :: 0 <= i < FD_SETSIZE && s.clients[i].hasAlias ==>
                  s.clients[i].active && i in s.fds && LegalAlias(s.clients[i].alias))
            && (forall i, j :: 0 <= i < j < FD_SETSIZE && s.clients[i].hasAlias && s.clients[j].hasAlias ==>
                  Fold(s.clients[i].alias) != Fold(s.clients[j].alias))
  {
    StartOk(listener);
    RunOk(Start(listener), listener, events);
  }

  lemma LegalIsCString(alias: string)
    requires LegalAlias(alias)
    ensures CString(alias)
  {
    assert !AllowedChar(NUL);
  }

  /** A zero `strnicmp` over the length of the first string. */
  lemma BeginsByPrefix(a: string, b: string)
    ensures Begins(a, b) <==> Fold(Take(a, |a|)) == Fold(Take(b, |a|))
  {
    assert Take(a, |a|) == a;
    if |a| <= |b| {
      assert Fold(b[..|a|]) == Fold(b)[..|a|];
    } else {
      assert |Fold(Take(b, |a|))| < |Fold(a)|;
    }
  }

  /** `eset`, updated in place. */
  class EventSet {
    ghost const listener: nat
    var fds: set<nat>
    var max: nat
    var clients: seq<Client>

    function Abstract(): Server
      reads this
    {
      Server(fds, max, clients)
    }

    ghost predicate Valid()
      reads this
    {
      Ok(Abstract(), listener)
    }

    /** `server_init_eventset` and the registration of the listener. */
    constructor (lfd: nat)
      requires 0 < lfd < FD_SETSIZE
      ensures listener == lfd && Valid() && Abstract() == Start(lfd)
    {
      listener := lfd;
      fds, max, clients := {lfd}, lfd, seq(FD_SETSIZE, _ => NO_CLIENT);
      new;
      StartOk(lfd);
      assert {} + {lfd} == {lfd};
    }

    /** `server_event_unregister_fd`. */
    method UnregisterFd(fd: nat)
      modifies `fds, `max
      ensures Abstract() == Unregister(old(Abstract()), fd)
    {
      fds := fds - {fd};
      if fd == max {
        var i := 0;
        while i < fd
          invariant i <= fd && fds == old(fds) - {fd}
          invariant Rescan(fds, i, fd, max) == Rescan(fds, 0, fd, old(max))
        {
          if i in fds {
            max := i;
          }
          i := i + 1;
        }
      }
    }

    /** `server_disconnect_client`. */
    method DisconnectClient(fd: nat)
      requires Valid() && fd < FD_SETSIZE && fd != listener
      modifies this
      ensures Valid() && Abstract() == Disconnect(old(Abstract()), fd)
    {
      DisconnectOk(Abstract(), listener, fd);
      clients := clients[fd := clients[fd].(active := false, hasAlias := false, queued := "")];
      UnregisterFd(fd);
    }

    /** `server_write_fd_queue`, on the text that the buffer holds. */
    method WriteFdQueue(fd: nat, data: string)
      requires Valid() && fd < FD_SETSIZE
      modifies `clients
      ensures Valid() && Abstract() == Queue(old(Abstract()), fd, data)
    {
      QueueOk(Abstract(), listener, fd, data);
      if clients[fd].active {
        var c := clients[fd];
        if INIT_QSIZ - |c.queued| > |data| {
          clients := clients[fd := c.(queued := c.queued + data)];
        } else {
          assert clients[fd := c.(queued := c.queued)] == clients;
        }
      }
    }

    method WriteEach(fd: nat, fragments: seq<string>)
      requires Valid() && fd < FD_SETSIZE
      modifies `clients
      ensures Valid() && Abstract() == QueueEach(old(Abstract()), fd, fragments)
    {
      var i := 0;
      while i < |fragments|
        invariant i <= |fragments| && Valid()
        invariant QueueEach(Abstract(), fd, fragments[i..]) == QueueEach(old(Abstract()), fd, fragments)
      {
        assert fragments[i..][0] == fragments[i] && fragments[i..][1..] == fragments[i + 1..];
        WriteFdQueue(fd, fragments[i]);
        i := i + 1;
      }
    }

    /** `server_flush_queued_data`. */
    method FlushQueuedData(fd: nat, taken: nat)
      requires Valid() && fd < FD_SETSIZE && fd != listener
      modifies this
      ensures Valid() && Abstract() == Flush(old(Abstract()), fd, taken)
    {
      FlushOk(Abstract(), listener, fd, taken);
      var c := clients[fd];
      if !c.active || c.queued == "" {
        return;
      }
      clients := clients[fd := c.(wire := c.wire + Take(FlushWire(c.queued), taken), queued := "")];
      if taken <= |c.queued| {
        DisconnectClient(fd);
      }
    }

    /** `server_accept_client`: accept(2) has returned a fresh descriptor. */
    method AcceptClient(nfd: nat, addr: string, taken: nat)
      requires Valid() && 0 < nfd < FD_SETSIZE && nfd !in fds
      modifies this
      ensures Valid() && Abstract() == Welcome(old(Abstract()), nfd, addr, taken)
    {
      AcceptOk(Abstract(), listener, nfd, addr);
      clients := clients[nfd := Client(true, addr, "", false, "", "")];
      fds := fds + {nfd};
      if nfd > max {
        max := nfd;
      }
      WriteEach(nfd, GREETING);
      FlushQueuedData(nfd, taken);
    }

    /** The alias scan shared by `server_process_alias` and `server_process_private`. */
    method FindAlias(fd: nat, name: string) returns (found: int)
      requires Valid() && CString(name)
      ensures found == Scan(Abstract(), fd, name, 0)
    {
      var i := 0;
      while i <= max
        invariant i <= max + 1
        invariant Scan(Abstract(), fd, name, i) == Scan(Abstract(), fd, name, 0)
      {
        if i in fds && clients[i].active && clients[i].hasAlias && fd != i {
          LegalIsCString(clients[i].alias);
          var diff := Strnicmp(name, clients[i].alias, |name|);
          BeginsByPrefix(name, clients[i].alias);
          if diff == 0 {
            return i;
          }
        }
        i := i + 1;
      }
      found := -1;
    }

    /** `server_process_alias`: the dispatcher has seen more than the command word. */
    method ProcessAlias(fd: nat, inbuff: string, taken: nat) returns (verdict: Verdict)
      requires Valid() && fd < FD_SETSIZE && clients[fd].active && CString(inbuff) && |inbuff| > |MAGIC_STR_ALIAS|
      modifies this
      ensures var alias := inbuff[7..];
              && Valid() && verdict == Judge(old(Abstract()), fd, alias)
              && Abstract() == NameClient(old(Abstract()), fd, alias, taken)
    {
      var alias := inbuff[|MAGIC_STR_ALIAS|..];
      SetAliasOk(Abstract(), listener, fd, alias);
      assert forall i :: 0 <= i < |alias| ==> alias[i] in inbuff;
      verdict := Check(fd, alias);
      if verdict.Granted? {
        clients := clients[fd := clients[fd].(hasAlias := true, alias := alias)];
      }
      WriteEach(fd, AliasReply(verdict, alias));
      FlushQueuedData(fd, taken);
    }

    method Check(fd: nat, alias: string) returns (verdict: Verdict)
      requires Valid() && fd < FD_SETSIZE && CString(alias)
      ensures verdict == Judge(Abstract(), fd, alias)
    {
      if clients[fd].hasAlias {
        return AlreadySet;
      }
      if |alias| > ALIAS_MAXLEN {
        return TooLong;
      }
      var i := 0;
      while i < |alias|
        invariant i <= |alias| && forall k :: 0 <= k < i ==> AllowedChar(alias[k])
      {
        if !AllowedChar(alias[i]) {
          return BadChar;
        }
        i := i + 1;
      }
      var other := FindAlias(fd, alias);
      verdict := if other >= 0 then InUse else Granted;
    }

    /** The second half of `server_process_private`.  The null message and the lost sender end it where
        the code's behaviour is undefined. */
    method Deliver(fd: nat, alias: string, msg: Message, taken: nat, takenTo: nat) returns (how: Routing)
      requires Valid() && fd < FD_SETSIZE && clients[fd].active && CString(alias)
      modifies this
      ensures Valid() && (Abstract(), how) == Route(old(Abstract()), fd, alias, msg, taken, takenTo)
    {
      ScanComplete(Abstract(), listener, fd, alias, 0);
      var to := FindAlias(fd, alias);
      if to < 0 {
        WriteEach(fd, ["<Server @ cmd>: Alias not found."]);
        FlushQueuedData(fd, taken);
        return NotFound;
      }
      if msg.NoMessage? {
        return NullMessage;
      }
      assert Holder(Abstract(), fd, alias, to);
      WriteEach(fd, [Repr(Abstract(), fd), " (-> ", Repr(Abstract(), to), "): ", msg.text]);
      FlushQueuedData(fd, taken);
      if !clients[fd].active {
        return SenderLost;
      }
      WriteEach(to, [Repr(Abstract(), fd), " [priv] :", msg.text]);
      FlushQueuedData(to, takenTo);
      how := Delivered(to);
    }

    /** The loop of `server_process_private` over the characters after the '@'. */
    static method ParsePrivate(inbuff: string) returns (alias: string, msg: Message)
      requires CString(inbuff) && inbuff != ""
      ensures (alias, msg) == Parse(inbuff) && CString(alias)
    {
      var i := 0;
      alias, msg := "", NoMessage;
      while i < ALIAS_MAXLEN
        invariant 0 <= i <= ALIAS_MAXLEN && i < |inbuff| && alias == inbuff[1..1 + i]
        invariant msg == if i == 0 then NoMessage else Message(inbuff[1 + i..])
        invariant NameEnd(inbuff, i) == NameEnd(inbuff, 0)
      {
        var chr := At(inbuff, i + 1);
        if chr == ' ' || chr == NUL {
          assert i + 1 < |inbuff| ==> inbuff[i + 1] in inbuff;
          break;
        }
        alias, msg, i := alias + [chr], Message(inbuff[i + 2..]), i + 1;
      }
      assert forall k :: 0 <= k < |alias| ==> alias[k] in inbuff;
    }

    /** `server_process_private`; the text after the '@' is NUL-terminated. */
    method ProcessPrivate(fd: nat, inbuff: string, taken: nat, takenTo: nat) returns (how: Routing)
      requires Valid() && fd < FD_SETSIZE && clients[fd].active && CString(inbuff) && inbuff != ""
      modifies this
      ensures Valid() && (Abstract(), how) == Whisper(old(Abstract()), fd, inbuff, taken, takenTo)
    {
      var alias, msg := ParsePrivate(inbuff);
      how := Deliver(fd, alias, msg, taken, takenTo);
    }
  }
}
