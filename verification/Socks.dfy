/**
  The SOCKS5 negotiation of the loopback proxy (src/loopback.rs): sections 3 to 6 of RFC 1928 with the
  username/password method of section 2 of RFC 1929. Whether a name is valid UTF-8 and whether a target can be
  dialled are parameters.
 */
module Socks {
  import opened Wrappers
  import opened Bytes

  datatype Target = Ipv4(addr: seq<Byte>, port: nat) | Domain(name: seq<Byte>, port: nat)

  /** The bytes of `tsnet`. */
  const USER: seq<Byte> := [116, 115, 110, 101, 116]

  const NO_METHOD: seq<Byte> := [5, 255]
  const USER_PASS: seq<Byte> := [5, 2]
  const AUTH_FAILURE: seq<Byte> := [1, 1]
  const AUTH_SUCCESS: seq<Byte> := [1, 0]
  const CMD_NOT_SUPPORTED: Byte := 7
  const ATYP_NOT_SUPPORTED: Byte := 8

  function Reply(rep: Byte): seq<Byte> { [5, rep, 0, 1, 0, 0, 0, 0, 0, 0] }

  // What a client sends.

  predicate ValidTarget(t: Target, utf8: seq<Byte> -> bool) {
    && t.port < 0x1_0000
    && match t
       case Ipv4(addr, _) => |addr| == 4
       case Domain(name, _) => |name| < 256 && utf8(name)
  }

  function Hello(methods: seq<Byte>): seq<Byte>
    requires |methods| < 256
  {
    [5, |methods|] + methods
  }

  function Login(user: seq<Byte>, password: seq<Byte>): seq<Byte>
    requires |user| < 256 && |password| < 256
  {
    [1, |user|] + user + [|password|] + password
  }

  function PortBytes(port: nat): seq<Byte>
    requires port < 0x1_0000
  {
    [port / 256, port % 256]
  }

  function Connect(t: Target, reserved: Byte): seq<Byte>
    requires t.port < 0x1_0000 && (t.Domain? ==> |t.name| < 256)
  {
    match t
    case Ipv4(addr, port) => [5, 1, reserved, 1] + addr + PortBytes(port)
    case Domain(name, port) => [5, 1, reserved, 3, |name|] + name + PortBytes(port)
  }

  // What the proxy makes of it.

  datatype Parsed = Ok(target: Target) | Err(rep: Byte)

  /** `parse_request` */
  function ParseRequest(buf: seq<Byte>, utf8: seq<Byte> -> bool): Parsed {
    if |buf| < 4 || buf[0] != 5 then Err(CMD_NOT_SUPPORTED)
    else if buf[1] != 1 then Err(CMD_NOT_SUPPORTED)
    else if buf[3] == 1 then
      if |buf| < 10 then Err(CMD_NOT_SUPPORTED)
      else Ok(Ipv4(buf[4..8], 256 * (buf[8] as int) + buf[9]))
    else if buf[3] == 3 then
      if |buf| < 5 then Err(CMD_NOT_SUPPORTED) else
      var len: nat := buf[4];
      if |buf| < 5 + len + 2 then Err(CMD_NOT_SUPPORTED)
      else if !utf8(buf[5..5 + len]) then Err(CMD_NOT_SUPPORTED)
      else Ok(Domain(buf[5..5 + len], 256 * (buf[5 + len] as int) + buf[6 + len]))
    else Err(ATYP_NOT_SUPPORTED)
  }

  /** A phase of the negotiation ends it, on a stream that broke off or after a reply, or leads on. */
  datatype Phase<T> = Broken | Closed(replies: seq<seq<Byte>>, rest: seq<Byte>) | Go(value: T, rest: seq<Byte>)

  function Greet(s: seq<Byte>): Phase<()> {
    if |s| < 2 then Broken
    else if s[0] != 5 then Closed([], s[2..])
    else
      var end: nat := 2 + s[1] as int;
      if |s| < end then Broken
      else if 2 !in s[2..end] then Closed([NO_METHOD], s[end..])
      else Go((), s[end..])
  }

  /** A length byte and that many bytes, and what follows them. */
  function ReadField(s: seq<Byte>): Option<(seq<Byte>, seq<Byte>)> {
    if |s| < 1 then None else
    var n, more := s[0], s[1..];
    if |more| < n then None else Some((more[..n], more[n..]))
  }

  /** A user name and a password. */
  function ReadLogin(s: seq<Byte>): Phase<(seq<Byte>, seq<Byte>)> {
    if |s| < 2 then Broken
    else if s[0] != 1 then Closed([], s[2..])
    else
      var user := ReadField(s[1..]);
      if user.None? then Broken else
      var password := ReadField(user.value.1);
      if password.None? then Broken else Go((user.value.0, password.value.0), password.value.1)
  }

  function Authenticate(s: seq<Byte>, cred: seq<Byte>): Phase<()> {
    match ReadLogin(s)
    case Broken => Broken
    case Closed(replies, rest) => Closed(replies, rest)
    case Go(login, rest) => if login == (USER, cred) then Go((), rest) else Closed([AUTH_FAILURE], rest)
  }

  /** The buffer handed to `parse_request`: header, address and port. */
  function Request(s: seq<Byte>): Phase<seq<Byte>> {
    if |s| < 4 then Broken
    else if s[3] == 1 then
      if |s| < 10 then Broken else Go(s[..10], s[10..])
    else if s[3] == 3 then
      if |s| < 5 then Broken else
      var end: nat := 7 + s[4] as int;
      if |s| < end then Broken else Go(s[..end], s[end..])
    else if s[3] == 4 then Closed([Reply(ATYP_NOT_SUPPORTED)], if |s| < 22 then [] else s[22..])
    else Closed([Reply(ATYP_NOT_SUPPORTED)], s[4..])
  }

  datatype End = Failed | Refused | Dialed(target: Target)

  datatype Outcome = Outcome(replies: seq<seq<Byte>>, end: End, rest: seq<Byte>)

  /** What follows a request buffer. */
  function Answer(buf: seq<Byte>, rest: seq<Byte>, utf8: seq<Byte> -> bool, reachable: Target -> bool): Outcome {
    match ParseRequest(buf, utf8)
    case Err(rep) => Outcome([Reply(rep)], Refused, rest)
    case Ok(t) => if reachable(t) then Outcome([Reply(0)], Dialed(t), rest) else Outcome([Reply(5)], Refused, rest)
  }

  function AfterAuth(s: seq<Byte>, utf8: seq<Byte> -> bool, reachable: Target -> bool): Outcome {
    match Request(s)
    case Broken => Outcome([], Failed, [])
    case Closed(replies, rest) => Outcome(replies, Refused, rest)
    case Go(buf, rest) => Answer(buf, rest, utf8, reachable)
  }

  /** What a phase has written when it is over; `go` is what it writes to lead on. */
  function Said(p: Phase<()>, go: seq<Byte>): seq<seq<Byte>> {
    match p
    case Broken => []
    case Closed(replies, _) => replies
    case Go(_, _) => [go]
  }

  function After(said: seq<seq<Byte>>, o: Outcome): Outcome { o.(replies := said + o.replies) }

  function FromLogin(p: Phase<()>, utf8: seq<Byte> -> bool, reachable: Target -> bool): Outcome {
    match p
    case Broken => Outcome([], Failed, [])
    case Closed(_, rest) => Outcome([], Refused, rest)
    case Go(_, rest) => AfterAuth(rest, utf8, reachable)
  }

  function AfterHello(s: seq<Byte>, cred: seq<Byte>, utf8: seq<Byte> -> bool, reachable: Target -> bool): Outcome {
    After(Said(Authenticate(s, cred), AUTH_SUCCESS), FromLogin(Authenticate(s, cred), utf8, reachable))
  }

  function FromHello(p: Phase<()>, cred: seq<Byte>, utf8: seq<Byte> -> bool, reachable: Target -> bool): Outcome {
    match p
    case Broken => Outcome([], Failed, [])
    case Closed(_, rest) => Outcome([], Refused, rest)
    case Go(_, rest) => AfterHello(rest, cred, utf8, reachable)
  }

  function Negotiated(s: seq<Byte>, cred: seq<Byte>, utf8: seq<Byte> -> bool, reachable: Target -> bool): Outcome {
    After(Said(Greet(s), USER_PASS), FromHello(Greet(s), cred, utf8, reachable))
  }

  // A well-formed conversation dials what it names and leaves the rest unread.

  lemma GreetHello(methods: seq<Byte>, s: seq<Byte>)
    requires |methods| < 256
    ensures Greet(Hello(methods) + s) == if 2 in methods then Go((), s) else Closed([NO_METHOD], s)
  {
    var all := Hello(methods) + s;
    assert all[2..2 + |methods|] == methods && all[2 + |methods|..] == s;
  }

  lemma AuthenticateLogin(user: seq<Byte>, password: seq<Byte>, cred: seq<Byte>, s: seq<Byte>)
    requires |user| < 256 && |password| < 256
    ensures Authenticate(Login(user, password) + s, cred) ==
            if user == USER && password == cred then Go((), s) else Closed([AUTH_FAILURE], s)
  {
    var all := Login(user, password) + s;
    var second := [|password|] + password + s;
    assert all[1..] == [|user|] + user + second;
    ReadFieldOf(user, second);
    ReadFieldOf(password, s);
  }

  lemma ReadFieldOf(field: seq<Byte>, s: seq<Byte>)
    requires |field| < 256
    ensures ReadField([|field|] + field + s) == Some((field, s))
  {
    assert ([|field|] + field + s)[1..] == field + s;
  }

  lemma RequestConnect(t: Target, reserved: Byte, utf8: seq<Byte> -> bool, s: seq<Byte>)
    requires ValidTarget(t, utf8)
    ensures Request(Connect(t, reserved) + s) == Go(Connect(t, reserved), s)
  {
    var c := Connect(t, reserved);
    assert (c + s)[..|c|] == c && (c + s)[|c|..] == s;
  }

  lemma ParseConnect(t: Target, reserved: Byte, utf8: seq<Byte> -> bool)
    requires ValidTarget(t, utf8)
    ensures ParseRequest(Connect(t, reserved), utf8) == Ok(t)
  {
    var c := Connect(t, reserved);
    match t {
      case Ipv4(addr, port) => assert c[4..8] == addr;
      case Domain(name, port) => assert c[5..5 + |name|] == name;
    }
  }

  lemma ConnectIsAnswered(t: Target, reserved: Byte, suffix: seq<Byte>, utf8: seq<Byte> -> bool,
                          reachable: Target -> bool)
    requires ValidTarget(t, utf8)
    ensures AfterAuth(Connect(t, reserved) + suffix, utf8, reachable) ==
            Outcome([Reply(if reachable(t) then 0 else 5)], if reachable(t) then Dialed(t) else Refused, suffix)
  {
    RequestConnect(t, reserved, utf8, suffix);
    ParseConnect(t, reserved, utf8);
  }

  lemma LoginLeadsOn(cred: seq<Byte>, s: seq<Byte>, utf8: seq<Byte> -> bool, reachable: Target -> bool)
    requires |cred| < 256
    ensures AfterHello(Login(USER, cred) + s, cred, utf8, reachable) ==
            After([AUTH_SUCCESS], AfterAuth(s, utf8, reachable))
  {
    AuthenticateLogin(USER, cred, cred, s);
  }

  lemma HelloLeadsOn(methods: seq<Byte>, s: seq<Byte>, cred: seq<Byte>, utf8: seq<Byte> -> bool,
                     reachable: Target -> bool)
    requires |methods| < 256 && 2 in methods
    ensures Negotiated(Hello(methods) + s, cred, utf8, reachable) ==
            After([USER_PASS], AfterHello(s, cred, utf8, reachable))
  {
    GreetHello(methods, s);
  }

  lemma WellFormedIsDialed(methods: seq<Byte>, t: Target, reserved: Byte, suffix: seq<Byte>, cred: seq<Byte>,
                           utf8: seq<Byte> -> bool, reachable: Target -> bool)
    requires |methods| < 256 && 2 in methods && |cred| < 256 && ValidTarget(t, utf8)
    ensures Negotiated(Hello(methods) + (Login(USER, cred) + (Connect(t, reserved) + suffix)), cred, utf8, reachable) ==
            Outcome([[5, 2], [1, 0], [5, if reachable(t) then 0 else 5, 0, 1, 0, 0, 0, 0, 0, 0]],
                    if reachable(t) then Dialed(t) else Refused, suffix)
  {
    var s2 := Connect(t, reserved) + suffix;
    HelloLeadsOn(methods, Login(USER, cred) + s2, cred, utf8, reachable);
    LoginLeadsOn(cred, s2, utf8, reachable);
    ConnectIsAnswered(t, reserved, suffix, utf8, reachable);
  }

  /** A client that does not offer the password method is told so. */
  lemma NoMethodIsRefused(methods: seq<Byte>, suffix: seq<Byte>, cred: seq<Byte>, utf8: seq<Byte> -> bool,
                          reachable: Target -> bool)
    requires |methods| < 256 && 2 !in methods
    ensures Negotiated(Hello(methods) + suffix, cred, utf8, reachable) == Outcome([[5, 255]], Refused, suffix)
  {
    GreetHello(methods, suffix);
  }

  /** A wrong user name or password is answered by a failure, and the request is not read. */
  lemma WrongLoginIsRefused(methods: seq<Byte>, user: seq<Byte>, password: seq<Byte>, suffix: seq<Byte>,
                            cred: seq<Byte>, utf8: seq<Byte> -> bool, reachable: Target -> bool)
    requires |methods| < 256 && 2 in methods && |user| < 256 && |password| < 256
    requires user != [116, 115, 110, 101, 116] || password != cred
    ensures Negotiated(Hello(methods) + (Login(user, password) + suffix), cred, utf8, reachable) ==
            Outcome([[5, 2], [1, 1]], Refused, suffix)
  {
    HelloLeadsOn(methods, Login(user, password) + suffix, cred, utf8, reachable);
    AuthenticateLogin(user, password, cred, suffix);
  }

  /** Another version is not answered at all. */
  lemma WrongVersionIsDropped(s: seq<Byte>, cred: seq<Byte>, utf8: seq<Byte> -> bool, reachable: Target -> bool)
    requires |s| >= 2 && s[0] != 5
    ensures Negotiated(s, cred, utf8, reachable) == Outcome([], Refused, s[2..])
  {
  }

  lemma WrongLoginVersionIsDropped(methods: seq<Byte>, s: seq<Byte>, cred: seq<Byte>, utf8: seq<Byte> -> bool,
                                   reachable: Target -> bool)
    requires |methods| < 256 && 2 in methods && |s| >= 2 && s[0] != 1
    ensures Negotiated(Hello(methods) + s, cred, utf8, reachable) == Outcome([[5, 2]], Refused, s[2..])
  {
    HelloLeadsOn(methods, s, cred, utf8, reachable);
  }

  // The answer to a request, byte by byte.

  /** The stream ends inside the request. */
  predicate TooShort(s: seq<Byte>) {
    || |s| < 4
    || (s[3] == 1 && |s| < 10)
    || (s[3] == 3 && (|s| < 5 || |s| < 7 + s[4] as int))
  }

  /** Version 5, the connect command, and a name that is text. */
  predicate Asks(s: seq<Byte>, utf8: seq<Byte> -> bool)
    requires !TooShort(s) && s[3] in {1, 3}
  {
    s[0] == 5 && s[1] == 1 && (s[3] == 3 ==> utf8(s[5..5 + s[4] as int]))
  }

  function TargetAt(s: seq<Byte>): Target
    requires !TooShort(s) && s[3] in {1, 3}
  {
    if s[3] == 1 then Ipv4(s[4..8], 256 * (s[8] as int) + s[9])
    else
      var end: nat := 5 + s[4] as int;
      Domain(s[5..end], 256 * (s[end] as int) + s[end + 1])
  }

  /** What is left unread: an IPv6 address and its port are read and dropped, if they come. */
  function Unread(s: seq<Byte>): seq<Byte>
    requires !TooShort(s)
  {
    if s[3] == 1 then s[10..]
    else if s[3] == 3 then s[7 + s[4] as int..]
    else if s[3] == 4 then (if |s| < 22 then [] else s[22..])
    else s[4..]
  }

  lemma RequestIsWhole(s: seq<Byte>)
    ensures Request(s).Broken? <==> TooShort(s)
    ensures !TooShort(s) ==> Request(s).rest == Unread(s)
    ensures Request(s).Closed? <==> !TooShort(s) && s[3] !in {1, 3}
  {
  }

  lemma ParsedAs(s: seq<Byte>, utf8: seq<Byte> -> bool)
    requires !TooShort(s) && s[3] in {1, 3}
    ensures Request(s).Go?
    ensures ParseRequest(Request(s).value, utf8) == if Asks(s, utf8) then Ok(TargetAt(s)) else Err(7)
  {
    var buf := Request(s).value;
    if s[3] == 1 {
      assert buf[4..8] == s[4..8];
    } else {
      assert buf[5..5 + s[4] as int] == s[5..5 + s[4] as int];
    }
  }

  /** The code of the reply: 8 exactly for an address type other than 1 and 3, 7 exactly for a wrong version,
      command or name, 5 exactly for a target that cannot be dialled, and 0 exactly when it was. */
  predicate CodeIs(code: int, s: seq<Byte>, utf8: seq<Byte> -> bool, reachable: Target -> bool)
    requires !TooShort(s)
  {
    && (code == 8 <==> s[3] !in {1, 3})
    && (code == 7 <==> s[3] in {1, 3} && !Asks(s, utf8))
    && (code == 5 <==> s[3] in {1, 3} && Asks(s, utf8) && !reachable(TargetAt(s)))
    && (code == 0 <==> s[3] in {1, 3} && Asks(s, utf8) && reachable(TargetAt(s)))
  }

  /** One reply of ten bytes to every request that is read whole, success exactly for a target that was dialled;
      none to one that is not. */
  lemma RequestReplies(s: seq<Byte>, utf8: seq<Byte> -> bool, reachable: Target -> bool)
    ensures var o := AfterAuth(s, utf8, reachable);
            if TooShort(s) then o == Outcome([], Failed, [])
            else
              && |o.replies| == 1 && |o.replies[0]| == 10
              && o.replies[0][0] == 5 && o.replies[0][2..] == [0, 1, 0, 0, 0, 0, 0, 0]
              && CodeIs(o.replies[0][1], s, utf8, reachable)
              && o.rest == Unread(s)
              && o.end == if o.replies[0][1] == 0 then Dialed(TargetAt(s)) else Refused
  {
    RequestIsWhole(s);
    if !TooShort(s) && s[3] in {1, 3} { ParsedAs(s, utf8); }
  }

  /** 100.64.0.5:8080 over IPv4, when it cannot be dialled. */
  lemma UnreachableIsRefused(suffix: seq<Byte>, utf8: seq<Byte> -> bool, reachable: Target -> bool)
    requires !reachable(Ipv4([100, 64, 0, 5], 8080))
    ensures AfterAuth([5, 1, 0, 1, 100, 64, 0, 5, 31, 144] + suffix, utf8, reachable) ==
            Outcome([[5, 5, 0, 1, 0, 0, 0, 0, 0, 0]], Refused, suffix)
  {
    var t := Ipv4([100, 64, 0, 5], 8080);
    assert Connect(t, 0) == [5, 1, 0, 1, 100, 64, 0, 5, 31, 144];
    ConnectIsAnswered(t, 0, suffix, utf8, reachable);
  }

  // And nothing else is dialled.

  lemma GreetInverts(s: seq<Byte>)
    requires Greet(s).Go?
    ensures var methods := s[2..2 + s[1] as int];
            2 in methods && s == Hello(methods) + Greet(s).rest
  {
  }

  lemma AuthenticateInverts(s: seq<Byte>, cred: seq<Byte>)
    requires Authenticate(s, cred).Go?
    ensures |cred| < 256 && s == Login(USER, cred) + Authenticate(s, cred).rest
  {
  }

  /** The buffer is as long as its address type demands, so only the version, the command or the name can be
      wrong with it. */
  lemma BufferIsExact(s: seq<Byte>, utf8: seq<Byte> -> bool)
    requires Request(s).Go?
    ensures var buf := Request(s).value;
            && s == buf + Request(s).rest
            && |buf| == (if buf[3] == 1 then 10 else 7 + buf[4] as int)
            && (ParseRequest(buf, utf8).Err? <==>
                buf[0] != 5 || buf[1] != 1 || (buf[3] == 3 && !utf8(buf[5..|buf| - 2])))
            && (ParseRequest(buf, utf8).Err? ==> ParseRequest(buf, utf8).rep == CMD_NOT_SUPPORTED)
  {
  }

  lemma PortBytesOf(a: Byte, b: Byte)
    ensures PortBytes(256 * (a as int) + b) == [a, b]
  {
  }

  lemma RequestInverts(s: seq<Byte>, utf8: seq<Byte> -> bool)
    requires Request(s).Go? && ParseRequest(Request(s).value, utf8).Ok?
    ensures var t := ParseRequest(Request(s).value, utf8).target;
            ValidTarget(t, utf8) && s == Connect(t, s[2]) + Request(s).rest
  {
    var buf := Request(s).value;
    BufferIsExact(s, utf8);
    PortBytesOf(buf[|buf| - 2], buf[|buf| - 1]);
    assert buf == Connect(ParseRequest(buf, utf8).target, buf[2]);
  }

  lemma DialedPassesAll(s: seq<Byte>, cred: seq<Byte>, utf8: seq<Byte> -> bool, reachable: Target -> bool)
    requires Negotiated(s, cred, utf8, reachable).end.Dialed?
    ensures Greet(s).Go? && Authenticate(Greet(s).rest, cred).Go?
    ensures var s2 := Authenticate(Greet(s).rest, cred).rest;
            var o := Negotiated(s, cred, utf8, reachable);
            && Request(s2).Go? && o.rest == Request(s2).rest
            && ParseRequest(Request(s2).value, utf8) == Ok(o.end.target) && reachable(o.end.target)
  {
  }

  lemma DialedIsWellFormed(s: seq<Byte>, cred: seq<Byte>, utf8: seq<Byte> -> bool, reachable: Target -> bool)
    returns (methods: seq<Byte>, reserved: Byte)
    requires Negotiated(s, cred, utf8, reachable).end.Dialed?
    ensures var o := Negotiated(s, cred, utf8, reachable);
            && ValidTarget(o.end.target, utf8) && reachable(o.end.target) && |cred| < 256
            && |methods| < 256 && 2 in methods
            && s == Hello(methods) + (Login(USER, cred) + (Connect(o.end.target, reserved) + o.rest))
  {
    DialedPassesAll(s, cred, utf8, reachable);
    var s1 := Greet(s).rest;
    var s2 := Authenticate(s1, cred).rest;
    GreetInverts(s);
    AuthenticateInverts(s1, cred);
    RequestInverts(s2, utf8);
    methods, reserved := s[2..2 + s[1] as int], s2[2];
  }

  /** A failure reply to a request. */
  predicate IsFailure(reply: seq<Byte>) {
    || reply == [5, 5, 0, 1, 0, 0, 0, 0, 0, 0]
    || reply == [5, 7, 0, 1, 0, 0, 0, 0, 0, 0]
    || reply == [5, 8, 0, 1, 0, 0, 0, 0, 0, 0]
  }

  lemma AnswersAre(s: seq<Byte>, utf8: seq<Byte> -> bool, reachable: Target -> bool)
    ensures var o := AfterAuth(s, utf8, reachable);
            match o.end
            case Dialed(_) => o.replies == [[5, 0, 0, 1, 0, 0, 0, 0, 0, 0]]
            case Refused => |o.replies| == 1 && IsFailure(o.replies[0])
            case Failed => o.replies == []
  {
    if Request(s).Go? { BufferIsExact(s, utf8); }
  }

  /** The replies from the login on. */
  predicate RepliesFromLogin(o: Outcome) {
    if o.end.Dialed? then o.replies == [[1, 0], [5, 0, 0, 1, 0, 0, 0, 0, 0, 0]]
    else || o.replies == [] || o.replies == [[1, 1]] || o.replies == [[1, 0]]
         || (|o.replies| == 2 && o.replies[0] == [1, 0] && IsFailure(o.replies[1]))
  }

  /** The replies of a whole conversation: success comes once, last, and only after the method was selected and
      the login accepted. */
  predicate RepliesFromStart(o: Outcome) {
    if o.end.Dialed? then o.replies == [[5, 2], [1, 0], [5, 0, 0, 1, 0, 0, 0, 0, 0, 0]]
    else || o.replies == [] || o.replies == [[5, 255]]
         || o.replies == [[5, 2]] || o.replies == [[5, 2], [1, 1]] || o.replies == [[5, 2], [1, 0]]
         || (|o.replies| == 3 && o.replies[..2] == [[5, 2], [1, 0]] && IsFailure(o.replies[2]))
  }

  lemma LoginCloses(s: seq<Byte>, cred: seq<Byte>)
    ensures Authenticate(s, cred).Closed? ==>
      Authenticate(s, cred).replies == [] || Authenticate(s, cred).replies == [AUTH_FAILURE]
  {
  }

  lemma GreetingCloses(s: seq<Byte>)
    ensures Greet(s).Closed? ==> Greet(s).replies == [] || Greet(s).replies == [NO_METHOD]
  {
  }

  lemma LoginReplies(p: Phase<()>, utf8: seq<Byte> -> bool, reachable: Target -> bool)
    requires p.Closed? ==> p.replies == [] || p.replies == [AUTH_FAILURE]
    ensures RepliesFromLogin(After(Said(p, AUTH_SUCCESS), FromLogin(p, utf8, reachable)))
  {
    if p.Go? { AnswersAre(p.rest, utf8, reachable); }
  }

  lemma HelloReplies(p: Phase<()>, o: Outcome)
    requires p.Closed? ==> p.replies == [] || p.replies == [NO_METHOD]
    requires if p.Go? then RepliesFromLogin(o) else o.replies == [] && !o.end.Dialed?
    ensures RepliesFromStart(After(Said(p, USER_PASS), o))
  {
  }

  lemma RepliesAre(s: seq<Byte>, cred: seq<Byte>, utf8: seq<Byte> -> bool, reachable: Target -> bool)
    ensures RepliesFromStart(Negotiated(s, cred, utf8, reachable))
  {
    var p := Greet(s);
    GreetingCloses(s);
    if p.Go? {
      LoginCloses(p.rest, cred);
      LoginReplies(Authenticate(p.rest, cred), utf8, reachable);
    }
    HelloReplies(p, FromHello(p, cred, utf8, reachable));
  }

  // More input never changes what was said, nor how a negotiation ended.

  ghost predicate Extends<T>(p: Phase<T>, p': Phase<T>, t: seq<Byte>) {
    p.Broken? || p' == p.(rest := p.rest + t)
  }

  lemma GreetExtends(s: seq<Byte>, t: seq<Byte>)
    ensures Extends(Greet(s), Greet(s + t), t)
  {
    if |s| >= 2 {
      assert (s + t)[2..] == s[2..] + t;
      var end: nat := 2 + s[1] as int;
      if |s| >= end { assert (s + t)[2..end] == s[2..end] && (s + t)[end..] == s[end..] + t; }
    }
  }

  lemma ReadFieldExtends(s: seq<Byte>, t: seq<Byte>)
    requires ReadField(s).Some?
    ensures ReadField(s + t) == Some((ReadField(s).value.0, ReadField(s).value.1 + t))
  {
    var more := s[1..];
    assert (s + t)[1..] == more + t;
    assert (more + t)[..s[0]] == more[..s[0]] && (more + t)[s[0]..] == more[s[0]..] + t;
  }

  lemma AuthenticateExtends(s: seq<Byte>, t: seq<Byte>, cred: seq<Byte>)
    ensures Extends(Authenticate(s, cred), Authenticate(s + t, cred), t)
  {
    if |s| >= 2 {
      assert (s + t)[2..] == s[2..] + t && (s + t)[1..] == s[1..] + t;
      var user := ReadField(s[1..]);
      if s[0] == 1 && user.Some? {
        ReadFieldExtends(s[1..], t);
        if ReadField(user.value.1).Some? { ReadFieldExtends(user.value.1, t); }
      }
    }
  }

  lemma RequestExtends(s: seq<Byte>, t: seq<Byte>, utf8: seq<Byte> -> bool, reachable: Target -> bool)
    requires !TooShort(s)
    ensures AfterAuth(s + t, utf8, reachable).replies == AfterAuth(s, utf8, reachable).replies
    ensures AfterAuth(s + t, utf8, reachable).end == AfterAuth(s, utf8, reachable).end
    ensures s[3] != 4 ==> AfterAuth(s + t, utf8, reachable).rest == AfterAuth(s, utf8, reachable).rest + t
  {
    if s[3] == 1 {
      assert (s + t)[..10] == s[..10] && (s + t)[10..] == s[10..] + t;
    } else if s[3] == 3 {
      var end: nat := 7 + s[4] as int;
      assert (s + t)[..end] == s[..end] && (s + t)[end..] == s[end..] + t;
    } else {
      assert (s + t)[4..] == s[4..] + t;
    }
  }

  /** `o'` says all that `o` says, and ends as `o` does if `o` did not break off. */
  ghost predicate GoesOn(o: Outcome, o': Outcome) {
    o.replies <= o'.replies && (!o.end.Failed? ==> o'.replies == o.replies && o'.end == o.end)
  }

  lemma AnswerGoesOn(s: seq<Byte>, t: seq<Byte>, utf8: seq<Byte> -> bool, reachable: Target -> bool)
    ensures GoesOn(AfterAuth(s, utf8, reachable), AfterAuth(s + t, utf8, reachable))
  {
    RequestReplies(s, utf8, reachable);
    if !TooShort(s) { RequestExtends(s, t, utf8, reachable); }
  }

  lemma LoginGoesOn(s: seq<Byte>, t: seq<Byte>, cred: seq<Byte>, utf8: seq<Byte> -> bool, reachable: Target -> bool)
    ensures GoesOn(AfterHello(s, cred, utf8, reachable), AfterHello(s + t, cred, utf8, reachable))
  {
    AuthenticateExtends(s, t, cred);
    var p := Authenticate(s, cred);
    if p.Go? { AnswerGoesOn(p.rest, t, utf8, reachable); }
  }

  /** The proxy's replies are decided by what has been sent so far: whatever the client sends later, they stand,
      and so does the end of a negotiation that did not break off. */
  lemma MoreInputGoesOn(s: seq<Byte>, t: seq<Byte>, cred: seq<Byte>, utf8: seq<Byte> -> bool,
                        reachable: Target -> bool)
    ensures GoesOn(Negotiated(s, cred, utf8, reachable), Negotiated(s + t, cred, utf8, reachable))
  {
    GreetExtends(s, t);
    var p := Greet(s);
    if p.Go? { LoginGoesOn(p.rest, t, cred, utf8, reachable); }
  }

  // The code.

  class Sock {
    var unread: seq<Byte>
    var written: seq<seq<Byte>>

    constructor (input: seq<Byte>)
      ensures unread == input && written == []
    {
      unread, written := input, [];
    }

    /** `read_exact`, which fails when the client closes first. */
    method ReadExact(n: nat) returns (bytes: Option<seq<Byte>>)
      modifies this`unread
      ensures |old(unread)| < n ==> bytes.None? && unread == []
      ensures |old(unread)| >= n ==> bytes == Some(old(unread)[..n]) && unread == old(unread)[n..]
    {
      if |unread| < n {
        unread := [];
        return None;
      }
      bytes := Some(unread[..n]);
      unread := unread[n..];
    }

    method Write(reply: seq<Byte>)
      modifies this`written
      ensures written == old(written) + [reply]
    {
      written := written + [reply];
    }

    /** The greeting. */
    method Phase1() returns (p: Phase<()>)
      modifies this`unread, this`written
      ensures p == Greet(old(unread)) && (p.Broken? || unread == p.rest)
      ensures written == old(written) + Said(p, USER_PASS)
    {
      var head := ReadExact(2);
      if head.None? { return Broken; }
      if head.value[0] != 5 { return Closed([], unread); }
      var methods := ReadExact(head.value[1]);
      if methods.None? { return Broken; }
      if 2 !in methods.value {
        Write(NO_METHOD);
        return Closed([NO_METHOD], unread);
      }
      Write(USER_PASS);
      p := Go((), unread);
    }

    method Field() returns (r: Option<seq<Byte>>)
      modifies this`unread
      ensures var f := ReadField(old(unread));
              if f.None? then r.None? else r == Some(f.value.0) && unread == f.value.1
    {
      ghost var s := unread;
      var length := ReadExact(1);
      if length.None? { return None; }
      var n := length.value[0];
      assert n == s[0] && unread == s[1..];
      r := ReadExact(n);
      assert r.None? <==> |s[1..]| < n;
    }

    method Login() returns (p: Phase<(seq<Byte>, seq<Byte>)>)
      modifies this`unread
      ensures p == ReadLogin(old(unread)) && (p.Broken? || unread == p.rest)
    {
      assert |unread| >= 2 ==> unread[1..][1..] == unread[2..];
      var head := ReadExact(2);
      if head.None? { return Broken; }
      if head.value[0] != 1 { return Closed([], unread); }
      var user := ReadExact(head.value[1]);
      if user.None? { return Broken; }
      var password := Field();
      if password.None? { return Broken; }
      p := Go((user.value, password.value), unread);
    }

    /** The login. */
    method Phase2(cred: seq<Byte>) returns (p: Phase<()>)
      modifies this`unread, this`written
      ensures p == Authenticate(old(unread), cred) && (p.Broken? || unread == p.rest)
      ensures written == old(written) + Said(p, AUTH_SUCCESS)
    {
      var login := Login();
      match login {
        case Broken => p := Broken;
        case Closed(replies, rest) => p := Closed(replies, rest);
        case Go(pair, rest) =>
          if pair.0 == USER && pair.1 == cred {
            Write(AUTH_SUCCESS);
            return Go((), rest);
          }
          Write(AUTH_FAILURE);
          p := Closed([AUTH_FAILURE], rest);
      }
    }

    /** Reading the request, its address by its type. */
    method Phase3() returns (p: Phase<seq<Byte>>)
      modifies this`unread, this`written
      ensures p == Request(old(unread)) && (p.Broken? || unread == p.rest)
      ensures written == old(written) + if p.Closed? then p.replies else []
    {
      ghost var s := unread;
      var head := ReadExact(4);
      if head.None? { return Broken; }
      match head.value[3] {
        case 1 =>
          var more := ReadExact(6);
          if more.None? { return Broken; }
          assert head.value + more.value == s[..10];
          p := Go(head.value + more.value, unread);
        case 3 =>
          var length := ReadExact(1);
          if length.None? { return Broken; }
          var more := ReadExact(length.value[0] as int + 2);
          if more.None? { return Broken; }
          assert head.value + length.value + more.value == s[..7 + s[4] as int];
          p := Go(head.value + length.value + more.value, unread);
        case 4 =>
          var _ := ReadExact(18);
          Write(Reply(ATYP_NOT_SUPPORTED));
          p := Closed([Reply(ATYP_NOT_SUPPORTED)], unread);
        case _ =>
          Write(Reply(ATYP_NOT_SUPPORTED));
          p := Closed([Reply(ATYP_NOT_SUPPORTED)], unread);
      }
    }

    /** The dial. */
    method Dial(buf: seq<Byte>, utf8: seq<Byte> -> bool, reachable: Target -> bool) returns (end: End)
      modifies this`written
      ensures var o := Answer(buf, unread, utf8, reachable);
              end == o.end && written == old(written) + o.replies
    {
      match ParseRequest(buf, utf8) {
        case Err(rep) =>
          Write(Reply(rep));
          end := Refused;
        case Ok(target) =>
          if !reachable(target) {
            Write(Reply(5));
            return Refused;
          }
          Write(Reply(0));
          end := Dialed(target);
      }
    }

    method NegotiateRequest(utf8: seq<Byte> -> bool, reachable: Target -> bool) returns (end: End)
      modifies this`unread, this`written
      ensures var o := AfterAuth(old(unread), utf8, reachable);
              && end == o.end && written == old(written) + o.replies
              && (!end.Failed? ==> unread == o.rest)
    {
      var p := Phase3();
      match p {
        case Broken => end := Failed;
        case Closed(_, _) => end := Refused;
        case Go(buf, _) => end := Dial(buf, utf8, reachable);
      }
    }

    method AfterLogin(p: Phase<()>, utf8: seq<Byte> -> bool, reachable: Target -> bool) returns (end: End)
      requires p.Broken? || unread == p.rest
      modifies this`unread, this`written
      ensures var o := FromLogin(p, utf8, reachable);
              && end == o.end && written == old(written) + o.replies
              && (!end.Failed? ==> unread == o.rest)
    {
      match p {
        case Broken => end := Failed;
        case Closed(_, _) => end := Refused;
        case Go(_, _) => end := NegotiateRequest(utf8, reachable);
      }
    }

    method NegotiateLogin(cred: seq<Byte>, utf8: seq<Byte> -> bool, reachable: Target -> bool) returns (end: End)
      modifies this`unread, this`written
      ensures var o := AfterHello(old(unread), cred, utf8, reachable);
              && end == o.end && written == old(written) + o.replies
              && (!end.Failed? ==> unread == o.rest)
    {
      var p := Phase2(cred);
      Regroup(old(written), Said(p, AUTH_SUCCESS), FromLogin(p, utf8, reachable).replies);
      end := AfterLogin(p, utf8, reachable);
    }

    method AfterGreeting(p: Phase<()>, cred: seq<Byte>, utf8: seq<Byte> -> bool, reachable: Target -> bool)
      returns (end: End)
      requires p.Broken? || unread == p.rest
      modifies this`unread, this`written
      ensures var o := FromHello(p, cred, utf8, reachable);
              && end == o.end && written == old(written) + o.replies
              && (!end.Failed? ==> unread == o.rest)
    {
      match p {
        case Broken => end := Failed;
        case Closed(_, _) => end := Refused;
        case Go(_, _) => end := NegotiateLogin(cred, utf8, reachable);
      }
    }

    /** `negotiate`, its three phases in turn. */
    method Negotiate(cred: seq<Byte>, utf8: seq<Byte> -> bool, reachable: Target -> bool) returns (end: End)
      modifies this`unread, this`written
      ensures var o := Negotiated(old(unread), cred, utf8, reachable);
              && end == o.end && written == old(written) + o.replies
              && (!end.Failed? ==> unread == o.rest)
    {
      var p := Phase1();
      Regroup(old(written), Said(p, USER_PASS), FromHello(p, cred, utf8, reachable).replies);
      end := AfterGreeting(p, cred, utf8, reachable);
    }
  }
}
