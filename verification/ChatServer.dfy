/** The event set of `6_network/server.c`: registered descriptors, clients, aliases and routing. */
module ChatServer {
  import opened ChatCommon
  import opened ChatQueue

  const FD_SETSIZE := 1024
  const ALIAS_MAXLEN := 15
  const MAGIC_STR_ALIAS := "\\alias "

  /** The members of `ALIAS_ALLOWED_CHARS`. */
  predicate AllowedChar(c: char) {
    'a' <= c <= 'z' || 'A' <= c <= 'Z' || '0' <= c <= '9' || c == '_' || c == '-'
  }

  /** `struct client`; `wire` is what has been sent to it. */
  datatype Client = Client(active: bool, addr: string, queued: string, hasAlias: bool, alias: string, wire: string)

  const NO_CLIENT := Client(false, "", "", false, "", "")

  /** `struct eventset`: the descriptors in `read.fds`, `read.max`, and the client slots. */
  datatype Server = Server(fds: set<nat>, max: nat, clients: seq<Client>)

  /** The sizes of the static arrays and of the output buffers. */
  predicate Sized(s: Server) {
    && |s.clients| == FD_SETSIZE && s.max < FD_SETSIZE
    && forall i :: 0 <= i < FD_SETSIZE ==> |s.clients[i].queued| < INIT_QSIZ
  }

  /** An empty set with the listener registered. */
  function Start(listener: nat): Server {
    Register(Server({}, 0, seq(FD_SETSIZE, _ => NO_CLIENT)), listener)
  }

  /** `server_event_register_fd`. */
  function Register(s: Server, fd: nat): Server {
    s.(fds := s.fds + {fd}, max := if fd > s.max then fd else s.max)
  }

  /** The rescan of `server_event_unregister_fd` from descriptor i on. */
  function Rescan(fds: set<nat>, i: nat, fd: nat, max: nat): (r: nat)
    ensures r == max || r < fd
    decreases fd - i
  {
    if i >= fd then max else Rescan(fds, i + 1, fd, if i in fds then i else max)
  }

  /** `server_event_unregister_fd`. */
  function Unregister(s: Server, fd: nat): Server {
    var fds := s.fds - {fd};
    s.(fds := fds, max := if fd == s.max then Rescan(fds, 0, fd, s.max) else s.max)
  }

  /** `server_disconnect_client`. */
  function Disconnect(s: Server, fd: nat): Server
    requires fd < |s.clients|
  {
    var c := s.clients[fd].(active := false, hasAlias := false, queued := "");
    Unregister(s, fd).(clients := s.clients[fd := c])
  }

  /** `server_write_fd_queue`; a client that is gone has no room. */
  function Queue(s: Server, fd: nat, data: string): Server
    requires fd < |s.clients| && |s.clients[fd].queued| < INIT_QSIZ
  {
    var c := s.clients[fd];
    if c.active then s.(clients := s.clients[fd := c.(queued := QueueText(c.queued, INIT_QSIZ, data))]) else s
  }

  function QueueEach(s: Server, fd: nat, fragments: seq<string>): (r: Server)
    requires fd < |s.clients| && |s.clients[fd].queued| < INIT_QSIZ
    ensures |r.clients| == |s.clients| && (Sized(s) ==> Sized(r))
    decreases |fragments|
  {
    if fragments == [] then s else QueueEach(Queue(s, fd, fragments[0]), fd, fragments[1..])
  }

  /** `server_flush_queued_data`, when the socket takes `taken` bytes before it gives up: a transfer
      that is cut short disconnects the client. */
  function Flush(s: Server, fd: nat, taken: nat): (r: Server)
    requires fd < |s.clients|
    ensures |r.clients| == |s.clients| && (Sized(s) ==> Sized(r))
  {
    var c := s.clients[fd];
    if !c.active || c.queued == "" then s
    else
      var s' := s.(clients := s.clients[fd := c.(wire := c.wire + Take(FlushWire(c.queued), taken), queued := "")]);
      if taken > |c.queued| then s' else Disconnect(s', fd)
  }

  /** `server_accept_client` up to its greeting. */
  function Accept(s: Server, nfd: nat, addr: string): Server
    requires nfd < |s.clients|
  {
    Register(s.(clients := s.clients[nfd := Client(true, addr, "", false, "", "")]), nfd)
  }

  predicate LegalAlias(alias: string) {
    1 <= |alias| <= ALIAS_MAXLEN && forall i :: 0 <= i < |alias| ==> AllowedChar(alias[i])
  }

  /** A legal alias, spelt out. */
  lemma LegalExactly(alias: string)
    ensures LegalAlias(alias) <==>
            && 1 <= |alias| <= 15
            && forall i :: 0 <= i < |alias| ==>
                 alias[i] in "abcdefghijklm" + "nopqrstuvwxyz" + "ABCDEFGHIJKLM" + "NOPQRSTUVWXYZ" + "01234567890" + "_-"
  {
    forall i | 0 <= i < |alias|
      ensures AllowedChar(alias[i]) <==>
              alias[i] in "abcdefghijklm" + "nopqrstuvwxyz" + "ABCDEFGHIJKLM" + "NOPQRSTUVWXYZ" + "01234567890" + "_-"
    {
      AllowedExactly(alias[i]);
    }
  }

  lemma AllowedExactly(c: char)
    ensures AllowedChar(c) <==>
            c in "abcdefghijklm" + "nopqrstuvwxyz" + "ABCDEFGHIJKLM" + "NOPQRSTUVWXYZ" + "01234567890" + "_-"
  {
  }

  /** `strnicmp` over the length of the first: it begins the second, up to case. */
  predicate Begins(alias: string, other: string) {
    Fold(alias) <= Fold(other)
  }

  /** The scan of the alias table from descriptor i up to `max`, past the asking client. */
  function Scan(s: Server, fd: nat, name: string, i: nat): (r: int)
    requires |s.clients| == FD_SETSIZE && s.max < FD_SETSIZE
    ensures -1 <= r < FD_SETSIZE
    decreases s.max + 1 - i
  {
    if i > s.max then -1
    else if i in s.fds && s.clients[i].active && s.clients[i].hasAlias && fd != i
            && Begins(name, s.clients[i].alias) then i
    else Scan(s, fd, name, i + 1)
  }

  datatype Verdict = AlreadySet | TooLong | BadChar | InUse | Granted

  /** The checks of `server_process_alias`, in its order. */
  function Judge(s: Server, fd: nat, alias: string): Verdict
    requires |s.clients| == FD_SETSIZE && s.max < FD_SETSIZE && fd < FD_SETSIZE
  {
    if s.clients[fd].hasAlias then AlreadySet
    else if |alias| > ALIAS_MAXLEN then TooLong
    else if exists i :: 0 <= i < |alias| && !AllowedChar(alias[i]) then BadChar
    else if Scan(s, fd, alias, 0) >= 0 then InUse
    else Granted
  }

  function AliasReply(v: Verdict, alias: string): seq<string> {
    match v
    case AlreadySet => ["<Server alias cmd>: You have already set an alias."]
    case TooLong => ["<Server alias cmd>: Sorry, this alias is too long (max 32 chars)."]
    case BadChar => ["<Server alias cmd>: Sorry, this alias contains invalid chars (allowed: a-zA-Z0-9_-)."]
    case InUse => ["<Server alias cmd>: Sorry, this alias is already in use."]
    case Granted => ["<Server alias cmd>: OK, alias set to ", alias, "."]
  }

  /** `server_process_alias` without its reply. */
  function SetAlias(s: Server, fd: nat, alias: string): Server
    requires |s.clients| == FD_SETSIZE && s.max < FD_SETSIZE && fd < FD_SETSIZE
  {
    if Judge(s, fd, alias).Granted?
    then s.(clients := s.clients[fd := s.clients[fd].(hasAlias := true, alias := alias)])
    else s
  }

  /** The invariant of the event loop. */
  ghost predicate Ok(s: Server, listener: nat) {
    && |s.clients| == FD_SETSIZE
    // `max` is the largest registered descriptor; stdin is never registered
    && listener in s.fds && 0 !in s.fds && s.max in s.fds && (forall f :: f in s.fds ==> f <= s.max < FD_SETSIZE)
    // the other registered descriptors are exactly the active clients
    && (forall i :: 0 <= i < FD_SETSIZE ==> (s.clients[i].active <==> i in s.fds && i != listener))
    && (forall i :: 0 <= i < FD_SETSIZE ==> ClientOk(s.clients[i]))
    // no two aliases are equal up to case
    && (forall i, j :: 0 <= i < j < FD_SETSIZE && s.clients[i].hasAlias && s.clients[j].hasAlias ==>
          Fold(s.clients[i].alias) != Fold(s.clients[j].alias))
  }

  predicate ClientOk(c: Client) {
    && |c.queued| < INIT_QSIZ
    && (c.hasAlias ==> c.active && LegalAlias(c.alias))
    && (!c.active ==> c.queued == "")
  }

  lemma {:induction false} RescanFinds(fds: set<nat>, i: nat, fd: nat, max: nat)
    requires i <= fd && (forall f :: f in fds ==> f < fd)
    requires (max in fds && forall f :: f in fds && f < i ==> f <= max) || (forall f :: f in fds ==> f >= i)
    ensures var m := Rescan(fds, i, fd, max);
            fds != {} ==> m in fds && forall f :: f in fds ==> f <= m
    decreases fd - i
  {
    if i < fd {
      RescanFinds(fds, i + 1, fd, if i in fds then i else max);
    } else if fds != {} {
      var f :| f in fds;
      assert f < fd;
    }
  }

  lemma StartOk(listener: nat)
    requires 0 < listener < FD_SETSIZE
    ensures Ok(Start(listener), listener)
  {
  }

  /** A new connection gets a descriptor that is not in use. */
  lemma AcceptOk(s: Server, listener: nat, nfd: nat, addr: string)
    requires Ok(s, listener) && 0 < nfd < FD_SETSIZE && nfd !in s.fds
    ensures Ok(Accept(s, nfd, addr), listener)
    ensures var s' := Accept(s, nfd, addr);
            && s'.fds == s.fds + {nfd} && Repr(s', nfd) == addr
            && s'.clients[nfd] == NO_CLIENT.(active := true, addr := addr)
            && forall i :: 0 <= i < FD_SETSIZE && i != nfd ==> s'.clients[i] == s.clients[i]
  {
  }

  /** After a disconnect `max` is again the largest registered descriptor. */
  lemma DisconnectOk(s: Server, listener: nat, fd: nat)
    requires Ok(s, listener) && fd < FD_SETSIZE && fd != listener
    ensures Ok(Disconnect(s, fd), listener)
    ensures var s', c := Disconnect(s, fd), s.clients[fd];
            && s'.fds == s.fds - {fd} && !s'.clients[fd].active && !s'.clients[fd].hasAlias
            && s'.clients[fd].addr == c.addr && s'.clients[fd].wire == c.wire
            && forall i :: 0 <= i < FD_SETSIZE && i != fd ==> s'.clients[i] == s.clients[i]
  {
    if fd == s.max {
      RescanFinds(s.fds - {fd}, 0, fd, s.max);
      assert listener in s.fds - {fd};
    }
  }

  lemma QueueOk(s: Server, listener: nat, fd: nat, data: string)
    requires Ok(s, listener) && fd < FD_SETSIZE
    ensures Ok(Queue(s, fd, data), listener)
  {
  }

  /** Queueing changes one client's queue, and nothing once the client is gone. */
  lemma {:induction false} QueueEachEffect(s: Server, fd: nat, fragments: seq<string>)
    requires fd < |s.clients| && |s.clients[fd].queued| < INIT_QSIZ
    ensures QueueEach(s, fd, fragments)
         == if s.clients[fd].active
            then var c := s.clients[fd];
                 s.(clients := s.clients[fd := c.(queued := QueueAll(c.queued, INIT_QSIZ, fragments))])
            else s
    decreases |fragments|
  {
    if fragments == [] {
      assert s.clients[fd := s.clients[fd]] == s.clients;
    } else {
      QueueEachEffect(Queue(s, fd, fragments[0]), fd, fragments[1..]);
    }
  }

  lemma {:induction false} QueueEachOk(s: Server, listener: nat, fd: nat, fragments: seq<string>)
    requires Ok(s, listener) && fd < FD_SETSIZE
    ensures Ok(QueueEach(s, fd, fragments), listener)
    decreases |fragments|
  {
    if fragments != [] {
      QueueOk(s, listener, fd, fragments[0]);
      QueueEachOk(Queue(s, fd, fragments[0]), listener, fd, fragments[1..]);
    }
  }

  lemma FlushOk(s: Server, listener: nat, fd: nat, taken: nat)
    requires Ok(s, listener) && fd < FD_SETSIZE && fd != listener
    ensures Ok(Flush(s, fd, taken), listener)
    ensures forall i :: 0 <= i < FD_SETSIZE && i != fd ==> Flush(s, fd, taken).clients[i] == s.clients[i]
  {
    var c := s.clients[fd];
    if c.active && c.queued != "" {
      var s' := s.(clients := s.clients[fd := c.(wire := c.wire + Take(FlushWire(c.queued), taken), queued := "")]);
      assert Ok(s', listener);
      if taken <= |c.queued| {
        DisconnectOk(s', listener, fd);
      }
    }
  }

  /** The other clients whose alias the name begins. */
  ghost predicate Holder(s: Server, fd: nat, name: string, i: nat) {
    i < |s.clients| && i != fd && s.clients[i].hasAlias && Begins(name, s.clients[i].alias)
  }

  /** The scan up to `max` misses no client: it finds the lowest holder there is. */
  lemma {:induction false} ScanComplete(s: Server, listener: nat, fd: nat, name: string, i: nat)
    requires Ok(s, listener)
    ensures var r := Scan(s, fd, name, i);
            && (r < 0 ==> r == -1 && forall k: nat :: k >= i ==> !Holder(s, fd, name, k))
            && (r >= 0 ==> i <= r && Holder(s, fd, name, r) && forall k: nat :: i <= k < r ==> !Holder(s, fd, name, k))
    decreases s.max + 1 - i
  {
    if i <= s.max {
      ScanComplete(s, listener, fd, name, i + 1);
    }
    forall k: nat | k < FD_SETSIZE && s.clients[k].hasAlias
      ensures k in s.fds && k <= s.max
    {
    }
  }

  /** An alias is granted exactly when the client has none yet, it is legal, and it begins nobody
      else's alias. */
  lemma GrantedExactly(s: Server, listener: nat, fd: nat, alias: string)
    requires Ok(s, listener) && fd < FD_SETSIZE && alias != ""
    ensures Judge(s, fd, alias).Granted? <==>
            !s.clients[fd].hasAlias && LegalAlias(alias) && forall i: nat :: !Holder(s, fd, alias, i)
  {
    ScanComplete(s, listener, fd, alias, 0);
  }

  /** Granting keeps the aliases distinct: equal up to case implies beginning. */
  lemma SetAliasOk(s: Server, listener: nat, fd: nat, alias: string)
    requires Ok(s, listener) && fd < FD_SETSIZE && s.clients[fd].active && alias != ""
    ensures Ok(SetAlias(s, fd, alias), listener)
    ensures Judge(s, fd, alias).Granted? ==>
              SetAlias(s, fd, alias).clients[fd].alias == Repr(SetAlias(s, fd, alias), fd) == alias
  {
    GrantedExactly(s, listener, fd, alias);
    if Judge(s, fd, alias).Granted? {
      forall i: nat | i < FD_SETSIZE && i != fd && s.clients[i].hasAlias
        ensures Fold(alias) != Fold(s.clients[i].alias)
      {
        assert !Holder(s, fd, alias, i);
      }
    }
  }

  /** Queue fragments for a client and flush them. */
  function Tell(s: Server, fd: nat, fragments: seq<string>, taken: nat): (r: Server)
    requires fd < |s.clients| && |s.clients[fd].queued| < INIT_QSIZ
    ensures |r.clients| == |s.clients| && (Sized(s) ==> Sized(r))
  {
    Flush(QueueEach(s, fd, fragments), fd, taken)
  }

  lemma TellOk(s: Server, listener: nat, fd: nat, fragments: seq<string>, taken: nat)
    requires Ok(s, listener) && fd < FD_SETSIZE && fd != listener
    ensures var s' := Tell(s, fd, fragments, taken);
            Ok(s', listener) && forall i :: 0 <= i < FD_SETSIZE && i != fd ==> s'.clients[i] == s.clients[i]
  {
    QueueEachOk(s, listener, fd, fragments);
    QueueEachEffect(s, fd, fragments);
    FlushOk(QueueEach(s, fd, fragments), listener, fd, taken);
  }

  lemma FlushWhole(s: Server, fd: nat, taken: nat)
    requires fd < |s.clients| && s.clients[fd].active && s.clients[fd].queued != "" && taken > |s.clients[fd].queued|
    ensures var c := s.clients[fd];
            Flush(s, fd, taken)
            == s.(clients := s.clients[fd := c.(wire := c.wire + FlushWire(c.queued), queued := "")])
  {
    assert Take(FlushWire(s.clients[fd].queued), taken) == FlushWire(s.clients[fd].queued);
  }

  /** What reaches a client of some fragments that are queued together and flushed. */
  function Sent(fragments: seq<string>): string {
    FlushWire(Concat(Kept("", INIT_QSIZ, fragments)))
  }

  /** What a client is sent when the socket takes everything. */
  lemma {:induction false} TellReaches(s: Server, fd: nat, fragments: seq<string>, taken: nat)
    requires fd < |s.clients| && s.clients[fd].active && s.clients[fd].queued == ""
    requires QueueAll("", INIT_QSIZ, fragments) != "" && taken >= INIT_QSIZ
    ensures Tell(s, fd, fragments, taken)
         == s.(clients := s.clients[fd := s.clients[fd].(wire := s.clients[fd].wire + Sent(fragments))])
  {
    var all, c := QueueAll("", INIT_QSIZ, fragments), s.clients[fd];
    var q := QueueEach(s, fd, fragments);
    QueueEachEffect(s, fd, fragments);
    QueueIsConcat("", INIT_QSIZ, fragments);
    assert "" + Concat(Kept("", INIT_QSIZ, fragments)) == Concat(Kept("", INIT_QSIZ, fragments));
    FlushWhole(q, fd, taken);
    var c' := c.(wire := c.wire + FlushWire(all));
    assert c'.(queued := "") == c';
    assert s.clients[fd := c.(queued := all)][fd := c'] == s.clients[fd := c'];
  }

  /** Something is queued when one of the first two fragments is short and not empty. */
  lemma {:induction false} QueueStarts(a: string, b: string, rest: seq<string>)
    requires 0 < |b| < INIT_QSIZ
    ensures QueueAll("", INIT_QSIZ, [a, b] + rest) != ""
  {
    assert ([a, b] + rest)[1..] == [b] + rest && ([b] + rest)[1..] == rest;
    var one := QueueText("", INIT_QSIZ, a);
    assert QueueText(one, INIT_QSIZ, b) != "";
  }

  lemma {:induction false} SentWhole(fragments: seq<string>)
    requires |Concat(fragments)| < INIT_QSIZ
    ensures Sent(fragments) == FlushWire(Concat(fragments))
  {
    KeptWhole("", INIT_QSIZ, fragments);
  }

  /** What a client is sent of a text that fits the buffer. */
  lemma {:induction false} TextReaches(s: Server, fd: nat, fragments: seq<string>, text: string, taken: nat)
    requires fd < |s.clients| && s.clients[fd].active && s.clients[fd].queued == "" && taken >= INIT_QSIZ
    requires text == Concat(fragments) && 0 < |text| < INIT_QSIZ
    ensures Tell(s, fd, fragments, taken)
         == s.(clients := s.clients[fd := s.clients[fd].(wire := s.clients[fd].wire + FlushWire(text))])
  {
    QueueIsConcat("", INIT_QSIZ, fragments);
    KeptWhole("", INIT_QSIZ, fragments);
    SentWhole(fragments);
    TellReaches(s, fd, fragments, taken);
  }

  lemma ConcatOne(a: string)
    ensures Concat([a]) == a
  {
    ConcatCons(a, []);
    assert [a] + [] == [a];
  }

  /** How many characters after the '@' the parser takes for the name. */
  function NameEnd(line: string, i: nat): (k: nat)
    requires line != "" && i <= ALIAS_MAXLEN && i < |line|
    ensures i <= k <= ALIAS_MAXLEN && k < |line|
    decreases ALIAS_MAXLEN - i
  {
    if i >= ALIAS_MAXLEN || At(line, i + 1) == ' ' || i + 1 == |line| then i else NameEnd(line, i + 1)
  }

  datatype Message = NoMessage | Message(text: string)

  /** The parser of `server_process_private`: the name, and the pointer to what follows it. */
  function Parse(line: string): (string, Message)
    requires line != ""
  {
    var k := NameEnd(line, 0);
    (line[1..1 + k], if k == 0 then NoMessage else Message(line[1 + k..]))
  }

  lemma {:induction false} NameEndsAt(line: string, i: nat, k: nat)
    requires line != "" && i <= k <= ALIAS_MAXLEN && k < |line|
    requires forall j :: i < j <= k ==> line[j] != ' '
    requires k == ALIAS_MAXLEN || At(line, k + 1) == ' ' || k + 1 == |line|
    ensures NameEnd(line, i) == k
    decreases k - i
  {
    if i < k {
      NameEndsAt(line, i + 1, k);
    }
  }

  /** Where the parser stops: the name is what follows the '@' up to the first space, the end of the
      line or the 15th character, and the message is the rest; without a name there is no message. */
  lemma {:induction false} ParseLine(line: string, k: nat)
    requires line != "" && k <= 15 && k < |line| && (forall j :: 0 < j <= k ==> line[j] != ' ')
    requires k == 15 || k + 1 == |line| || line[k + 1] == ' '
    ensures Parse(line) == (line[1..1 + k], if k == 0 then NoMessage else Message(line[1 + k..]))
  {
    NameEndsAt(line, 0, k);
  }

  /** `@alias` and a text that starts with a space parse to the two, for every legal alias up to the
      longest; so does `@alias` alone, with an empty text. */
  lemma ParseWhisper(alias: string, text: string)
    requires LegalAlias(alias) && (text == "" || text[0] == ' ')
    ensures Parse("@" + alias + text) == (alias, Message(text))
  {
    var line := "@" + alias + text;
    forall j | 0 < j <= |alias|
      ensures line[j] != ' '
    {
      assert line[j] == alias[j - 1] && AllowedChar(alias[j - 1]);
    }
    assert text != "" ==> line[|alias| + 1] == ' ';
    ParseLine(line, |alias|);
    assert line[1..1 + |alias|] == alias;
    assert line[1 + |alias|..] == text;
  }

  /** `server_get_client_repr`. */
  function Repr(s: Server, fd: nat): string
    requires fd < |s.clients|
  {
    if s.clients[fd].hasAlias then s.clients[fd].alias else s.clients[fd].addr
  }

  /** How a private message ends.  NullMessage: there is no name, and the code takes the length of a
      null pointer.  SenderLost: the sender's own copy could not be written, and the code goes on with
      the buffer it has just freed. */
  datatype Routing = NotFound | NullMessage | SenderLost | Delivered(to: nat)

  /** `server_process_private` once the line is parsed. */
  function Route(s: Server, fd: nat, name: string, msg: Message, taken: nat, takenTo: nat): (r: (Server, Routing))
    requires Sized(s) && fd < FD_SETSIZE
    ensures Sized(r.0)
  {
    var to := Scan(s, fd, name, 0);
    if to < 0 then (Tell(s, fd, ["<Server @ cmd>: Alias not found."], taken), NotFound)
    else if msg.NoMessage? then (s, NullMessage)
    else
      var s1 := Tell(s, fd, [Repr(s, fd), " (-> ", Repr(s, to), "): ", msg.text], taken);
      if !s1.clients[fd].active then (s1, SenderLost)
      else (Tell(s1, to, [Repr(s1, fd), " [priv] :", msg.text], takenTo), Delivered(to))
  }

  /** `server_process_private`. */
  function Whisper(s: Server, fd: nat, line: string, taken: nat, takenTo: nat): (r: (Server, Routing))
    requires Sized(s) && fd < FD_SETSIZE && line != ""
    ensures Sized(r.0)
  {
    var (name, msg) := Parse(line);
    Route(s, fd, name, msg, taken, takenTo)
  }

  /** Between two events nothing is left in a client's queue. */
  ghost predicate Quiet(s: Server) {
    forall i :: 0 <= i < |s.clients| ==> s.clients[i].queued == ""
  }

  /** The two texts of a private message, fragment by fragment. */
  function OwnCopy(from: string, to: string, text: string): seq<string> {
    [from, " (-> ", to, "): ", text]
  }

  function TheirCopy(from: string, text: string): seq<string> {
    [from, " [priv] :", text]
  }

  /** Routing: `@name`, with or without a text that starts with a space, goes to the lowest other client
      whose alias the name begins, up to case; that client and the sender get their copy, provided the
      sockets take it, and nobody else gets anything. */
  lemma WhisperTo(s: Server, listener: nat, fd: nat, name: string, to: nat, text: string, taken: nat, takenTo: nat)
    requires Ok(s, listener) && Quiet(s) && fd < FD_SETSIZE && s.clients[fd].active && LegalAlias(name)
    requires text == "" || text[0] == ' '
    requires Holder(s, fd, name, to) && forall i: nat :: Holder(s, fd, name, i) ==> to <= i
    requires taken >= INIT_QSIZ && takenTo >= INIT_QSIZ
    ensures var from, alias := Repr(s, fd), s.clients[to].alias;
            var (s', how) := Whisper(s, fd, "@" + name + text, taken, takenTo);
            && how == Delivered(to)
            && s' == s.(clients := s.clients
                 [fd := s.clients[fd].(wire := s.clients[fd].wire + Sent(OwnCopy(from, alias, text)))]
                 [to := s.clients[to].(wire := s.clients[to].wire + Sent(TheirCopy(from, text)))])
  {
    var from, alias := Repr(s, fd), s.clients[to].alias;
    ParseWhisper(name, text);
    ScanComplete(s, listener, fd, name, 0);
    assert Scan(s, fd, name, 0) == to;
    var own, theirs := OwnCopy(from, alias, text), TheirCopy(from, text);
    assert own == [from, " (-> "] + own[2..] && theirs == [from, " [priv] :"] + theirs[2..];
    QueueStarts(from, " (-> ", own[2..]);
    QueueStarts(from, " [priv] :", theirs[2..]);
    var s1 := Tell(s, fd, own, taken);
    TellReaches(s, fd, own, taken);
    TellReaches(s1, to, theirs, takenTo);
  }

  /** When the name begins no other client's alias, only the sender hears of it. */
  lemma WhisperUnknown(s: Server, listener: nat, fd: nat, name: string, text: string, taken: nat, takenTo: nat)
    requires Ok(s, listener) && Quiet(s) && fd < FD_SETSIZE && s.clients[fd].active && LegalAlias(name)
    requires (text == "" || text[0] == ' ') && (forall i: nat :: !Holder(s, fd, name, i)) && taken >= INIT_QSIZ
    ensures var reply := FlushWire("<Server @ cmd>: Alias not found.");
            Whisper(s, fd, "@" + name + text, taken, takenTo)
            == (s.(clients := s.clients[fd := s.clients[fd].(wire := s.clients[fd].wire + reply)]), NotFound)
  {
    var reply := "<Server @ cmd>: Alias not found.";
    ParseWhisper(name, text);
    ScanComplete(s, listener, fd, name, 0);
    ConcatOne(reply);
    TextReaches(s, fd, [reply], reply, taken);
  }

  /** If the name is a client's alias up to case and begins nobody else's, `@name text` reaches exactly
      that client and the sender; a text that fits the buffer arrives whole. */
  lemma WhisperReaches(s: Server, listener: nat, fd: nat, name: string, to: nat, text: string, taken: nat, takenTo: nat)
    requires Ok(s, listener) && Quiet(s) && fd < FD_SETSIZE && s.clients[fd].active && LegalAlias(name)
    requires to < FD_SETSIZE && to != fd && s.clients[to].hasAlias && Fold(name) == Fold(s.clients[to].alias)
    requires (text == "" || text[0] == ' ') && forall i: nat :: Holder(s, fd, name, i) ==> i == to
    requires |Repr(s, fd)| + |text| + 64 < INIT_QSIZ && taken >= INIT_QSIZ && takenTo >= INIT_QSIZ
    ensures var from, alias := if s.clients[fd].hasAlias then s.clients[fd].alias else s.clients[fd].addr,
                               s.clients[to].alias;
            var (s', how) := Whisper(s, fd, "@" + name + text, taken, takenTo);
            && how == Delivered(to)
            && s'.clients == s.clients
                 [fd := s.clients[fd].(wire := s.clients[fd].wire + FlushWire(from + " (-> " + alias + "): " + text))]
                 [to := s.clients[to].(wire := s.clients[to].wire + FlushWire(from + " [priv] :" + text))]
  {
    var from, alias := Repr(s, fd), s.clients[to].alias;
    assert Holder(s, fd, name, to);
    WhisperTo(s, listener, fd, name, to, text, taken, takenTo);
    assert LegalAlias(alias);
    ConcatFive(from, " (-> ", alias, "): ", text);
    SentWhole(OwnCopy(from, alias, text));
    ConcatThree(from, " [priv] :", text);
    SentWhole(TheirCopy(from, text));
  }

  lemma ConcatThree(a: string, b: string, c: string)
    ensures Concat([a, b, c]) == a + b + c
  {
    ConcatCons(c, []);
    ConcatCons(b, [c]);
    ConcatCons(a, [b, c]);
    assert [c] + [] == [c] && [b] + [c] == [b, c] && [a] + [b, c] == [a, b, c];
  }

  lemma ConcatFive(a: string, b: string, c: string, d: string, e: string)
    ensures Concat([a, b, c, d, e]) == a + b + c + d + e
  {
    ConcatThree(c, d, e);
    ConcatCons(b, [c, d, e]);
    ConcatCons(a, [b, c, d, e]);
    assert [b] + [c, d, e] == [b, c, d, e] && [a] + [b, c, d, e] == [a, b, c, d, e];
  }
}
