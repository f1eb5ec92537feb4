/**
 SOCKS5 framing of internal/proxy/socks5.go: the greeting, the login, the request and the
 reply, as RFC 1928 (sections 3 to 6) and RFC 1929 (section 2) lay them out.

 `Hello`, `Login` and `ReadRequest` say what the server makes of the bytes that are still to
 come; the methods, which read a connection piece by piece, are proved to do just that. The
 printers are the client's side, and parser and printer are proved inverse to each other.
 */
module Socks5 {
  import opened Runs
  import opened Text
  import Admission
  import B = IPBan
  import IPGen

  newtype byte = x: int | 0 <= x < 256

  type Bytes = seq<byte>

  const VERSION: byte := 0x05
  const AUTH_USER_PASS: byte := 0x02
  const AUTH_NO_ACCEPT: byte := 0xFF
  const CMD_CONNECT: byte := 0x01
  const ADDR_IPV4: byte := 0x01
  const ADDR_DOMAIN: byte := 0x03
  const ADDR_IPV6: byte := 0x04
  const REP_SUCCESS: byte := 0x00
  const REP_GENERAL_FAIL: byte := 0x01
  const REP_CMD_NOT_SUPP: byte := 0x07
  const REP_ADDR_NOT_SUPP: byte := 0x08

  // ---------------------------------------------------------------- what a client writes

  /** RFC 1928, section 3. */
  function Greeting(methods: Bytes): Bytes
    requires |methods| < 256
  {
    [VERSION, |methods| as byte] + methods
  }

  /** RFC 1929, section 2. */
  function LoginMessage(version: byte, user: Bytes, pass: Bytes): Bytes
    requires |user| < 256 && |pass| < 256
  {
    [version, |user| as byte] + user + [|pass| as byte] + pass
  }

  datatype Target = V4(addr: Bytes) | Name(name: Bytes) | V6(addr: Bytes)

  predicate IsTarget(t: Target) {
    match t
    case V4(a) => |a| == 4
    case Name(n) => |n| < 256
    case V6(a) => |a| == 16
  }

  function Atyp(t: Target): byte {
    match t
    case V4(_) => ADDR_IPV4
    case Name(_) => ADDR_DOMAIN
    case V6(_) => ADDR_IPV6
  }

  function PortBytes(port: int): Bytes
    requires 0 <= port < 65536
  {
    [(port / 256) as byte, (port % 256) as byte]
  }

  function HostBytes(t: Target): Bytes
    requires IsTarget(t)
  {
    match t
    case V4(a) => a
    case Name(n) => [|n| as byte] + n
    case V6(a) => a
  }

  /** An address and port, from after the address type: RFC 1928, section 5. */
  function AddressBytes(t: Target, port: int): Bytes
    requires IsTarget(t) && 0 <= port < 65536
  {
    HostBytes(t) + PortBytes(port)
  }

  /** RFC 1928, section 4. */
  function RequestMessage(cmd: byte, rsv: byte, t: Target, port: int): Bytes
    requires IsTarget(t) && 0 <= port < 65536
  {
    [VERSION, cmd, rsv, Atyp(t)] + AddressBytes(t, port)
  }

  /** The bytes of the RFCs, on examples. */
  lemma WireExamples(a: Bytes, b: Bytes)
    requires |a| == 4 && |b| == 16
    ensures Greeting([0, 2]) == [5, 2, 0, 2]
    ensures LoginMessage(1, [0x61, 0x62], [0x63]) == [1, 2, 0x61, 0x62, 1, 0x63]
    ensures RequestMessage(1, 0, V4(a), 443) == [5, 1, 0, 1] + a + [1, 187]
    ensures RequestMessage(1, 0, V6(b), 258) == [5, 1, 0, 4] + b + [1, 2]
    ensures RequestMessage(1, 0, Name([0x61]), 80) == [5, 1, 0, 3, 1, 0x61, 0, 80]
  {
  }

  // ---------------------------------------------------------------- what the server reads

  datatype HelloResult = NoHello | NoMethod(rest: Bytes) | Proceed(rest: Bytes)

  function Hello(s: Bytes): HelloResult {
    if |s| < 2 || s[0] != VERSION || |s| < 2 + s[1] as int then NoHello
    else if AUTH_USER_PASS in s[2..2 + s[1] as int] then Proceed(s[2 + s[1] as int..])
    else NoMethod(s[2 + s[1] as int..])
  }

  datatype LoginResult = NoLogin | Credentials(user: Bytes, pass: Bytes, rest: Bytes)

  function Login(s: Bytes): LoginResult {
    if |s| < 2 || |s| < 2 + s[1] as int + 1 then NoLogin
    else
      var at := 2 + s[1] as int;
      if |s| < at + 1 + s[at] as int then NoLogin
      else Credentials(s[2..at], s[at + 1..at + 1 + s[at] as int], s[at + 1 + s[at] as int..])
  }

  datatype AddressResult = NoAddress | Address(target: Target, port: int, rest: Bytes)

  function ReadPort(t: Target, s: Bytes): AddressResult {
    if |s| < 2 then NoAddress else Address(t, s[0] as int * 256 + s[1] as int, s[2..])
  }

  function ReadTarget(atyp: byte, s: Bytes): AddressResult {
    if atyp == ADDR_IPV4 then
      if |s| < 4 then NoAddress else ReadPort(V4(s[..4]), s[4..])
    else if atyp == ADDR_DOMAIN then
      if |s| < 1 || |s| < 1 + s[0] as int then NoAddress
      else ReadPort(Name(s[1..1 + s[0] as int]), s[1 + s[0] as int..])
    else if atyp == ADDR_IPV6 then
      if |s| < 16 then NoAddress else ReadPort(V6(s[..16]), s[16..])
    else NoAddress
  }

  datatype RequestResult = Dropped | Refused(rep: byte) | Connect(target: Target, port: int, rest: Bytes)

  function ReadRequest(s: Bytes): RequestResult {
    if |s| < 4 || s[0] != VERSION then Dropped
    else if s[1] != CMD_CONNECT then Refused(REP_CMD_NOT_SUPP)
    else match ReadTarget(s[3], s[4..])
      case NoAddress => Refused(REP_ADDR_NOT_SUPP)
      case Address(t, port, rest) => Connect(t, port, rest)
  }

  // ---------------------------------------------------------------- round trips

  /** A greeting is accepted exactly if it offers user name and password, and only its own
      bytes are read. */
  lemma HelloReadsGreeting(methods: Bytes, rest: Bytes)
    requires |methods| < 256
    ensures Hello(Greeting(methods) + rest) == if AUTH_USER_PASS in methods then Proceed(rest) else NoMethod(rest)
  {
    var s := Greeting(methods) + rest;
    assert s[2..2 + |methods|] == methods && s[2 + |methods|..] == rest;
  }

  /** And nothing but a greeting is accepted. */
  lemma HelloIsGreeting(s: Bytes)
    requires !Hello(s).NoHello?
    ensures var methods := s[2..2 + s[1] as int];
      s == Greeting(methods) + Hello(s).rest && (Hello(s).Proceed? <==> AUTH_USER_PASS in methods)
  {
  }

  /** The login is read back whatever its version byte, which the program does not look at, and
      the names may be of any length a byte can tell, also empty. */
  lemma LoginReadsMessage(version: byte, user: Bytes, pass: Bytes, rest: Bytes)
    requires |user| < 256 && |pass| < 256
    ensures Login(LoginMessage(version, user, pass) + rest) == Credentials(user, pass, rest)
  {
    var s := LoginMessage(version, user, pass) + rest;
    var at := 2 + |user|;
    assert s[2..at] == user && s[at] == |pass| as byte;
    assert s[at + 1..at + 1 + |pass|] == pass && s[at + 1 + |pass|..] == rest;
  }

  /** Nothing but the encoding of a login is accepted. */
  lemma LoginIsMessage(s: Bytes)
    requires Login(s).Credentials?
    ensures var l := Login(s);
      |l.user| < 256 && |l.pass| < 256 && s == LoginMessage(s[0], l.user, l.pass) + l.rest
  {
  }

  lemma PortRoundTrip(t: Target, port: int, rest: Bytes)
    requires 0 <= port < 65536
    ensures ReadPort(t, PortBytes(port) + rest) == Address(t, port, rest)
  {
    assert (PortBytes(port) + rest)[2..] == rest;
  }

  /** The host is read back, and what follows it is left. */
  lemma HostIsRead(t: Target, more: Bytes)
    requires IsTarget(t)
    ensures ReadTarget(Atyp(t), HostBytes(t) + more) == ReadPort(t, more)
  {
    var s := HostBytes(t) + more;
    match t {
      case V4(a) => assert s[..4] == a && s[4..] == more;
      case Name(n) => assert s[1..1 + |n|] == n && s[1 + |n|..] == more;
      case V6(a) => assert s[..16] == a && s[16..] == more;
    }
  }

  lemma TargetReadsAddress(t: Target, port: int, rest: Bytes)
    requires IsTarget(t) && 0 <= port < 65536
    ensures ReadTarget(Atyp(t), AddressBytes(t, port) + rest) == Address(t, port, rest)
  {
    PortRoundTrip(t, port, rest);
    HostIsRead(t, PortBytes(port) + rest);
    assert AddressBytes(t, port) + rest == HostBytes(t) + (PortBytes(port) + rest);
  }

  lemma PortIsBytes(t: Target, s: Bytes)
    requires ReadPort(t, s).Address?
    ensures var r := ReadPort(t, s); 0 <= r.port < 65536 && r.target == t && s == PortBytes(r.port) + r.rest
  {
  }

  lemma Regroup(a: Bytes, b: Bytes, c: Bytes)
    ensures a + (b + c) == a + b + c
  {
  }

  lemma ReadAfterHost(atyp: byte, s: Bytes)
    requires ReadTarget(atyp, s).Address?
    ensures var r := ReadTarget(atyp, s);
      && IsTarget(r.target) && atyp == Atyp(r.target)
      && HostBytes(r.target) <= s && ReadPort(r.target, s[|HostBytes(r.target)|..]) == r
  {
    if atyp == ADDR_IPV4 {
      assert ReadTarget(atyp, s).target == V4(s[..4]);
    } else if atyp == ADDR_DOMAIN {
      var n := s[0] as int;
      assert ReadTarget(atyp, s).target == Name(s[1..1 + n]);
      assert [n as byte] + s[1..1 + n] == s[..1 + n];
    } else {
      assert ReadTarget(atyp, s).target == V6(s[..16]);
    }
  }

  lemma TargetIsAddress(atyp: byte, s: Bytes)
    requires ReadTarget(atyp, s).Address?
    ensures var r := ReadTarget(atyp, s);
      && IsTarget(r.target) && atyp == Atyp(r.target) && 0 <= r.port < 65536
      && s == AddressBytes(r.target, r.port) + r.rest
  {
    var r := ReadTarget(atyp, s);
    var n := |HostBytes(r.target)|;
    ReadAfterHost(atyp, s);
    PortIsBytes(r.target, s[n..]);
    assert s == HostBytes(r.target) + s[n..];
    Regroup(HostBytes(r.target), PortBytes(r.port), r.rest);
  }

  lemma RequestReadsMessage(cmd: byte, rsv: byte, t: Target, port: int, rest: Bytes)
    requires IsTarget(t) && 0 <= port < 65536
    ensures ReadRequest(RequestMessage(cmd, rsv, t, port) + rest) ==
      if cmd == CMD_CONNECT then Connect(t, port, rest) else Refused(REP_CMD_NOT_SUPP)
  {
    var s := RequestMessage(cmd, rsv, t, port) + rest;
    assert s[4..] == AddressBytes(t, port) + rest;
    TargetReadsAddress(t, port, rest);
  }

  lemma HeaderAndRest(s: Bytes)
    requires |s| >= 4
    ensures s == [s[0], s[1], s[2], s[3]] + s[4..]
  {
  }

  /** Only the encoding of a connect request leads to a connection attempt. */
  lemma RequestIsMessage(s: Bytes)
    requires ReadRequest(s).Connect?
    ensures var r := ReadRequest(s);
      && IsTarget(r.target) && 0 <= r.port < 65536
      && s == RequestMessage(CMD_CONNECT, s[2], r.target, r.port) + r.rest
  {
    TargetIsAddress(s[3], s[4..]);
    HeaderAndRest(s);
    var r := ReadRequest(s);
    Regroup([s[0], s[1], s[2], s[3]], AddressBytes(r.target, r.port), r.rest);
  }

  /** A client that writes everything at once is understood, and the server takes not one byte
      of what is to be relayed. */
  lemma WholeConversation(methods: Bytes, version: byte, user: Bytes, pass: Bytes, rsv: byte, t: Target, port: int,
                          payload: Bytes)
    requires |methods| < 256 && AUTH_USER_PASS in methods && |user| < 256 && |pass| < 256
    requires IsTarget(t) && 0 <= port < 65536
    ensures var s := Greeting(methods)
        + (LoginMessage(version, user, pass) + (RequestMessage(CMD_CONNECT, rsv, t, port) + payload));
      && Hello(s).Proceed?
      && var login := Login(Hello(s).rest);
         && login.Credentials? && login.user == user && login.pass == pass
         && ReadRequest(login.rest) == Connect(t, port, payload)
  {
    var request := RequestMessage(CMD_CONNECT, rsv, t, port) + payload;
    HelloReadsGreeting(methods, LoginMessage(version, user, pass) + request);
    LoginReadsMessage(version, user, pass, request);
    RequestReadsMessage(CMD_CONNECT, rsv, t, port, payload);
  }

  // ---------------------------------------------------------------- replies

  /** Go's net.IP of a socket: nil, four bytes or sixteen. */
  datatype NetIP = Nil | Four(a: Bytes) | Sixteen(a: Bytes)

  /** The local end of a connection that was made. */
  datatype Local = Local(ip: NetIP, port: int)

  predicate IsNetIP(ip: NetIP) {
    match ip
    case Nil => true
    case Four(a) => |a| == 4
    case Sixteen(a) => |a| == 16
  }

  predicate IsLocal(l: Local) { IsNetIP(l.ip) && 0 <= l.port < 65536 }

  predicate Mapped(a: Bytes)
    requires |a| == 16
  {
    (forall i | 0 <= i < 10 :: a[i] == 0) && a[10] == 0xFF && a[11] == 0xFF
  }

  /** net.IP.To4. */
  function To4(ip: NetIP): Option<Bytes>
    requires IsNetIP(ip)
  {
    match ip
    case Nil => None
    case Four(a) => Some(a)
    case Sixteen(a) => if Mapped(a) then Some(a[12..]) else None
  }

  /** What a client sees: a sixteen-byte address that maps an IPv4 one goes out as that one, and
      no address as zeros. */
  function Bound(ip: NetIP): Target
    requires IsNetIP(ip)
  {
    match ip
    case Nil => V4([0, 0, 0, 0])
    case Four(a) => V4(a)
    case Sixteen(a) => if Mapped(a) then V4(a[12..]) else V6(a)
  }

  /** RFC 1928, section 6. */
  function ReplyMessage(rep: byte, t: Target, port: int): Bytes
    requires IsTarget(t) && 0 <= port < 65536
  {
    [VERSION, rep, 0, Atyp(t)] + AddressBytes(t, port)
  }

  /** A client that reads a reply with the server's own address reader gets the address. */
  lemma ReplyReadsBack(rep: byte, ip: NetIP, port: int)
    requires IsNetIP(ip) && 0 <= port < 65536
    ensures var s := ReplyMessage(rep, Bound(ip), port);
      s[..3] == [VERSION, rep, 0] && ReadTarget(s[3], s[4..]) == Address(Bound(ip), port, [])
  {
    var s := ReplyMessage(rep, Bound(ip), port);
    assert s[4..] == AddressBytes(Bound(ip), port) + [];
    TargetReadsAddress(Bound(ip), port, []);
  }

  /** An IPv4 address written as sixteen bytes goes out as its four, any other as it is, and none
      as zeros. */
  lemma BoundIs(a: Bytes, b: Bytes)
    requires |a| == 4 && |b| == 16
    ensures Bound(Sixteen([0, 0, 0, 0, 0, 0, 0, 0, 0, 0, 0xFF, 0xFF] + a)) == V4(a)
    ensures Bound(Sixteen(b)) == V6(b) <==> b[..12] != [0, 0, 0, 0, 0, 0, 0, 0, 0, 0, 0xFF, 0xFF]
    ensures ReplyMessage(0, Bound(Nil), 0) == [5, 0, 0, 1, 0, 0, 0, 0, 0, 0]
  {
    assert ([0, 0, 0, 0, 0, 0, 0, 0, 0, 0, 0xFF, 0xFF] + a)[12..] == a;
    assert Mapped(b) ==> b[..12] == [0, 0, 0, 0, 0, 0, 0, 0, 0, 0, 0xFF, 0xFF];
    assert b[..12] == [0, 0, 0, 0, 0, 0, 0, 0, 0, 0, 0xFF, 0xFF] ==> forall i | 0 <= i < 12 :: b[i] == b[..12][i];
  }

  // ---------------------------------------------------------------- the server

  class Conn {
    /** What the client sends and nobody has read yet, up to the end of its stream. */
    var incoming: Bytes
    var sent: Bytes

    constructor (incoming: Bytes)
      ensures this.incoming == incoming && sent == []
    {
      this.incoming, sent := incoming, [];
    }

    /** io.ReadFull: all n bytes, or an error after taking what there was. */
    method ReadFull(n: nat) returns (r: Option<Bytes>)
      modifies this`incoming
      ensures |old(incoming)| >= n ==> r == Some(old(incoming)[..n]) && incoming == old(incoming)[n..]
      ensures |old(incoming)| < n ==> r.None? && incoming == []
    {
      if |incoming| < n {
        incoming := [];
        return None;
      }
      r := Some(incoming[..n]);
      incoming := incoming[n..];
    }

    method Write(bs: Bytes)
      modifies this`sent
      ensures sent == old(sent) + bs
    {
      sent := sent + bs;
    }
  }

  method SendReply(conn: Conn, rep: byte, bindIP: NetIP, bindPort: int)
    requires IsNetIP(bindIP) && 0 <= bindPort < 65536
    modifies conn`sent
    ensures conn.sent == old(conn.sent) + ReplyMessage(rep, Bound(bindIP), bindPort)
  {
    var reply := [VERSION, rep, 0];
    if bindIP != Nil && To4(bindIP).None? {
      reply := reply + [ADDR_IPV6];
      reply := reply + bindIP.a;
    } else {
      reply := reply + [ADDR_IPV4];
      if bindIP != Nil {
        reply := reply + To4(bindIP).value;
      } else {
        reply := reply + [0, 0, 0, 0];
      }
    }
    reply := reply + PortBytes(bindPort);
    assert reply == ReplyMessage(rep, Bound(bindIP), bindPort);
    conn.Write(reply);
  }

  /** Leaves the connection just after what was read. */
  method ReadAddress(conn: Conn, atyp: byte) returns (target: Target, port: int, ok: bool)
    modifies conn`incoming
    ensures ok <==> ReadTarget(atyp, old(conn.incoming)).Address?
    ensures ok ==> ReadTarget(atyp, old(conn.incoming)) == Address(target, port, conn.incoming)
  {
    target, port, ok := Name([]), 0, false;
    ghost var s := conn.incoming;
    if atyp == ADDR_IPV4 {
      var buf := conn.ReadFull(4);
      if buf.None? {
        return;
      }
      target := V4(buf.value);
    } else if atyp == ADDR_DOMAIN {
      var lenBuf := conn.ReadFull(1);
      if lenBuf.None? {
        return;
      }
      var domBuf := conn.ReadFull(lenBuf.value[0] as nat);
      if domBuf.None? {
        return;
      }
      target := Name(domBuf.value);
      ghost var n := s[0] as int;
      assert s[1..][..n] == s[1..1 + n] && s[1..][n..] == s[1 + n..];
    } else if atyp == ADDR_IPV6 {
      var buf := conn.ReadFull(16);
      if buf.None? {
        return;
      }
      target := V6(buf.value);
    } else {
      return;
    }
    assert ReadTarget(atyp, s) == ReadPort(target, conn.incoming);
    var portBuf := conn.ReadFull(2);
    if portBuf.None? {
      return;
    }
    port, ok := portBuf.value[0] as int * 256 + portBuf.value[1] as int, true;
  }

  /** Go's string(bytes): the same bytes, which need not be UTF-8. */
  function AsString(bs: Bytes): string {
    seq(|bs|, i requires 0 <= i < |bs| => bs[i] as char)
  }

  lemma AsStringInjective(a: Bytes, b: Bytes)
    requires AsString(a) == AsString(b)
    ensures a == b
  {
    assert |AsString(a)| == |a| && |AsString(b)| == |b|;
    forall i | 0 <= i < |a| ensures a[i] == b[i] {
      assert AsString(a)[i] == a[i] as char && AsString(b)[i] == b[i] as char;
    }
  }

  method ReadHello(conn: Conn) returns (ok: bool)
    modifies conn
    ensures ok <==> Hello(old(conn.incoming)).Proceed?
    ensures ok ==> conn.incoming == Hello(old(conn.incoming)).rest
    ensures conn.sent == old(conn.sent) +
      match Hello(old(conn.incoming)) {
        case NoHello => []
        case NoMethod(_) => [VERSION, AUTH_NO_ACCEPT]
        case Proceed(_) => [VERSION, AUTH_USER_PASS]
      }
  {
    var buf := conn.ReadFull(2);
    if buf.None? || buf.value[0] != VERSION {
      return false;
    }
    var methods := conn.ReadFull(buf.value[1] as nat);
    if methods.None? {
      return false;
    }
    var hasUserPass := false;
    for i := 0 to |methods.value|
      invariant !hasUserPass && AUTH_USER_PASS !in methods.value[..i]
    {
      if methods.value[i] == AUTH_USER_PASS {
        hasUserPass := true;
        break;
      }
    }
    assert methods.value[..|methods.value|] == methods.value;
    if !hasUserPass {
      conn.Write([VERSION, AUTH_NO_ACCEPT]);
      return false;
    }
    conn.Write([VERSION, AUTH_USER_PASS]);
    return true;
  }

  method ReadLogin(conn: Conn) returns (ok: bool, user: Bytes, pass: Bytes)
    modifies conn`incoming
    ensures ok <==> Login(old(conn.incoming)).Credentials?
    ensures ok ==> Login(old(conn.incoming)) == Credentials(user, pass, conn.incoming)
  {
    ok, user, pass := false, [], [];
    var buf := conn.ReadFull(2);
    if buf.None? {
      return;
    }
    var userBuf := conn.ReadFull(buf.value[1] as nat);
    if userBuf.None? {
      return;
    }
    var pLenBuf := conn.ReadFull(1);
    if pLenBuf.None? {
      return;
    }
    var passBuf := conn.ReadFull(pLenBuf.value[0] as nat);
    if passBuf.None? {
      return;
    }
    return true, userBuf.value, passBuf.value;
  }

  // ---------------------------------------------------------------- one connection

  type Dialer = (Target, int, IPGen.Address) -> Option<Local>

  /** What the server answers to a request, given what dialling would bring. */
  function Answer(r: RequestResult, exitIP: IPGen.Address, dial: Dialer): Bytes
    requires r.Connect? && dial(r.target, r.port, exitIP).Some? ==> IsLocal(dial(r.target, r.port, exitIP).value)
  {
    match r
    case Dropped => []
    case Refused(rep) => ReplyMessage(rep, Bound(Nil), 0)
    case Connect(t, port, _) =>
      match dial(t, port, exitIP)
      case None => ReplyMessage(REP_GENERAL_FAIL, Bound(Nil), 0)
      case Some(local) => ReplyMessage(REP_SUCCESS, Bound(local.ip), local.port)
  }

  /** What a request asks to connect to, if it does. */
  function Asked(s: Bytes): (t: Option<(Target, int)>)
    ensures t.Some? <==> ReadRequest(s).Connect?
    ensures t.Some? ==> t.value.0 == ReadRequest(s).target && t.value.1 == ReadRequest(s).port
  {
    var r := ReadRequest(s);
    if r.Connect? then Some((r.target, r.port)) else None
  }

  predicate Fails(r: RequestResult, exitIP: IPGen.Address, dial: Dialer) {
    r.Refused? || (r.Connect? && dial(r.target, r.port, exitIP).None?)
  }

  /** The second byte of the answer: 0 when the dial succeeded, 1 when it failed, 7 for a command
      other than connect, 8 for an address that cannot be read. A short header, or one of another
      version, gets no answer. */
  lemma AnswerCode(s: Bytes, exitIP: IPGen.Address, dial: Dialer)
    requires forall t, port :: dial(t, port, exitIP).Some? ==> IsLocal(dial(t, port, exitIP).value)
    ensures var a := Answer(ReadRequest(s), exitIP, dial);
      if |s| < 4 || s[0] != 5 then a == []
      else
        && |a| >= 10 && a[0] == 5 && a[2] == 0
        && a[1] == if s[1] != 1 then 7
                   else match ReadTarget(s[3], s[4..])
                     case NoAddress => 8
                     case Address(t, port, _) => if dial(t, port, exitIP).Some? then 0 else 1
  {
  }

  /** A request counts as failed exactly when it is answered with a code other than 0; and a
      client that reads the answer to a successful one gets the local end of the connection. */
  lemma AnswerTells(s: Bytes, exitIP: IPGen.Address, dial: Dialer)
    requires forall t, port :: dial(t, port, exitIP).Some? ==> IsLocal(dial(t, port, exitIP).value)
    ensures var r := ReadRequest(s);
      var a := Answer(r, exitIP, dial);
      && (Fails(r, exitIP, dial) <==> |a| >= 2 && a[1] != 0)
      && (r.Connect? && dial(r.target, r.port, exitIP).Some? ==>
            var local := dial(r.target, r.port, exitIP).value;
            |a| >= 4 && ReadTarget(a[3], a[4..]) == Address(Bound(local.ip), local.port, []))
  {
    var r := ReadRequest(s);
    AnswerCode(s, exitIP, dial);
    if r.Connect? && dial(r.target, r.port, exitIP).Some? {
      var local := dial(r.target, r.port, exitIP).value;
      ReplyReadsBack(REP_SUCCESS, local.ip, local.port);
    }
  }

  datatype Clocks = Clocks(limiter: int, ban: int)

  class Server {
    const rt: Admission.Runtime
    const ban: B.IPBan
    var failedRequests: int

    constructor (rt: Admission.Runtime, ban: B.IPBan)
      requires rt.Valid() && ban.Valid()
      ensures Valid() && failedRequests == 0 && this.rt == rt && this.ban == ban
    {
      this.rt, this.ban, failedRequests := rt, ban, 0;
    }

    ghost predicate Valid()
      reads rt, rt.resolver, rt.resolver.store, rt.limiter, ban
    {
      rt.Valid() && ban.Valid()
    }

    ghost predicate InTime(now: Clocks)
      reads rt.limiter
    {
      rt.limiter != null ==> rt.limiter.H().now <= now.limiter
    }

    /** Asks for admission and answers; exactly the wrong credentials, not a used-up rate, count
        towards a ban. */
    method CheckLogin(conn: Conn, raw: string, password: string, clientIP: string, now: Clocks,
                      enabled: seq<IPGen.Prefix>, choice: seq<bv8>, rnd: seq<bv8>)
      returns (exitIP: Option<IPGen.Address>)
      requires Valid() && InTime(now) && |choice| == 8 && |rnd| == 16
      modifies conn`sent, ban, rt.resolver`draws, rt.store`sess, rt.store`idx, rt.limiter
      ensures Valid()
      ensures conn.sent == old(conn.sent) + [0x01, if exitIP.Some? then 0x00 else 0x01]
      ensures ban.calls ==
        if old(rt.Authentic(raw, password)) then old(ban.calls) else Then(old(ban.calls), B.Fail(clientIP, now.ban))
      ensures exitIP.Some? ==> old(rt.Admissible(raw, password, now.limiter)) && rt.HandedOut(exitIP.value)
      ensures old(rt.Admissible(raw, password, now.limiter)) && enabled != [] && Admission.AllParsed(enabled) ==>
        exitIP.Some?
    {
      var admitted, _ := rt.Admit(raw, password, "", now.limiter, enabled, choice, rnd);
      if !admitted.Admitted? {
        conn.Write([0x01, 0x01]);
        if admitted.BadAuth? {
          ban.RecordFailure(clientIP, now.ban);
        }
        return None;
      }
      conn.Write([0x01, 0x00]);
      return Some(admitted.ip);
    }

    /** Reads a login and answers with success exactly when the request is admitted. */
    method Authenticate(conn: Conn, clientIP: string, now: Clocks,
                        enabled: seq<IPGen.Prefix>, choice: seq<bv8>, rnd: seq<bv8>)
      returns (exitIP: Option<IPGen.Address>)
      requires Valid() && InTime(now) && |choice| == 8 && |rnd| == 16
      modifies conn, ban, rt.resolver`draws, rt.store`sess, rt.store`idx, rt.limiter
      ensures Valid()
      ensures var login := Login(old(conn.incoming));
        if login.NoLogin? then
          && exitIP.None? && conn.sent == old(conn.sent)
          && ban.calls == old(ban.calls) && rt.store.R() == old(rt.store.R())
        else
          && conn.incoming == login.rest
          && conn.sent == old(conn.sent) + [0x01, if exitIP.Some? then 0x00 else 0x01]
          && var good := old(rt.Authentic(AsString(login.user), AsString(login.pass)));
             && ban.calls == (if good then old(ban.calls) else Then(old(ban.calls), B.Fail(clientIP, now.ban)))
             && var may := old(rt.Admissible(AsString(login.user), AsString(login.pass), now.limiter));
             && (exitIP.Some? ==> may && rt.HandedOut(exitIP.value))
             && (may && enabled != [] && Admission.AllParsed(enabled) ==> exitIP.Some?)
    {
      var ok, user, pass := ReadLogin(conn);
      if !ok {
        return None;
      }
      exitIP := CheckLogin(conn, AsString(user), AsString(pass), clientIP, now, enabled, choice, rnd);
    }

    /** Dials exactly for a well-formed connect request, leaves everything after it for the
        relay, and counts each refusal; a short or foreign header is dropped uncounted. */
    method HandleRequest(conn: Conn, exitIP: IPGen.Address, dial: Dialer) returns (dialed: Option<(Target, int)>)
      requires forall t, port :: dial(t, port, exitIP).Some? ==> IsLocal(dial(t, port, exitIP).value)
      modifies conn, this`failedRequests
      ensures var r := ReadRequest(old(conn.incoming));
        && dialed == Asked(old(conn.incoming))
        && (r.Connect? ==> conn.incoming == r.rest)
        && conn.sent == old(conn.sent) + Answer(r, exitIP, dial)
        && failedRequests == old(failedRequests) + if Fails(r, exitIP, dial) then 1 else 0
      ensures var out := conn.sent[|old(conn.sent)|..];
        (|out| >= 2 && out[1] == 0) <==> dialed.Some? && dial(dialed.value.0, dialed.value.1, exitIP).Some?
    {
      var header := conn.ReadFull(4);
      if header.None? || header.value[0] != VERSION {
        return None;
      }
      if header.value[1] != CMD_CONNECT {
        SendReply(conn, REP_CMD_NOT_SUPP, Nil, 0);
        failedRequests := failedRequests + 1;
        return None;
      }
      var target, port, ok := ReadAddress(conn, header.value[3]);
      if !ok {
        SendReply(conn, REP_ADDR_NOT_SUPP, Nil, 0);
        failedRequests := failedRequests + 1;
        return None;
      }
      var local := dial(target, port, exitIP);
      if local.None? {
        SendReply(conn, REP_GENERAL_FAIL, Nil, 0);
        failedRequests := failedRequests + 1;
      } else {
        SendReply(conn, REP_SUCCESS, local.value.ip, local.value.port);
      }
      return Some((target, port));
    }

    /** A greeting that offers passwords, and a login that is admitted. */
    ghost predicate Greeted(s: Bytes, now: Clocks)
      reads rt.store, rt.limiter
    {
      && Hello(s).Proceed? && Login(Hello(s).rest).Credentials?
      && var login := Login(Hello(s).rest);
         rt.Admissible(AsString(login.user), AsString(login.pass), now.limiter)
    }

    /** Greeting and login: an address exactly for a client that is admitted, and then everything
        after the login is left to read. */
    method Negotiate(conn: Conn, clientIP: string, now: Clocks,
                     enabled: seq<IPGen.Prefix>, choice: seq<bv8>, rnd: seq<bv8>)
      returns (exitIP: Option<IPGen.Address>)
      requires Valid() && InTime(now) && |choice| == 8 && |rnd| == 16
      modifies conn, ban, rt.resolver`draws, rt.store`sess, rt.store`idx, rt.limiter
      ensures Valid()
      ensures exitIP.Some? ==>
        && old(Greeted(conn.incoming, now)) && rt.HandedOut(exitIP.value)
        && conn.incoming == Login(Hello(old(conn.incoming)).rest).rest
        && conn.sent == old(conn.sent) + [5, 2, 1, 0]
      ensures old(Greeted(conn.incoming, now)) && enabled != [] && Admission.AllParsed(enabled) ==> exitIP.Some?
    {
      var ok := ReadHello(conn);
      if !ok {
        return None;
      }
      exitIP := Authenticate(conn, clientIP, now, enabled, choice, rnd);
    }

    /** A ban of the client is in force. */
    ghost predicate Barred(clientIP: string, now: Clocks)
      reads ban
    {
      B.InForce(ban.C(), ban.calls, clientIP, now.ban)
    }

    /** How one connection went. A client that was given no address counts as one failure;
        otherwise its request is answered, and whatever follows a connect request is left. */
    predicate Served(s: Bytes, rest: Bytes, sent: Bytes, sentAfter: Bytes, failures: int,
                     exitIP: Option<IPGen.Address>, dial: Dialer, dialed: Option<(Target, int)>)
      requires forall t, port, ip :: dial(t, port, ip).Some? ==> IsLocal(dial(t, port, ip).value)
    {
      if exitIP.None? then dialed.None? && failures == 1
      else
        && Hello(s).Proceed? && Login(Hello(s).rest).Credentials?
        && var asked := Login(Hello(s).rest).rest;
           && dialed == Asked(asked) && (dialed.Some? ==> rest == ReadRequest(asked).rest)
           && sentAfter == sent + [5, 2, 1, 0] + Answer(ReadRequest(asked), exitIP.value, dial)
           && failures == if Fails(ReadRequest(asked), exitIP.value, dial) then 1 else 0
    }

    /** What follows the question whether the client is banned: an address is given to an admitted
        client, and its request is looked at. */
    method Serve(conn: Conn, clientIP: string, now: Clocks, dial: Dialer,
                 enabled: seq<IPGen.Prefix>, choice: seq<bv8>, rnd: seq<bv8>)
      returns (exitIP: Option<IPGen.Address>, dialed: Option<(Target, int)>)
      requires Valid() && InTime(now) && |choice| == 8 && |rnd| == 16
      requires forall t, port, ip :: dial(t, port, ip).Some? ==> IsLocal(dial(t, port, ip).value)
      modifies this`failedRequests, conn, ban, rt.resolver`draws, rt.store`sess, rt.store`idx, rt.limiter
      ensures Valid()
      ensures exitIP.Some? ==> old(Greeted(conn.incoming, now)) && rt.HandedOut(exitIP.value)
      ensures old(Greeted(conn.incoming, now)) && enabled != [] && Admission.AllParsed(enabled) ==> exitIP.Some?
      ensures Served(old(conn.incoming), conn.incoming, old(conn.sent), conn.sent, failedRequests - old(failedRequests),
                     exitIP, dial, dialed)
    {
      exitIP := Negotiate(conn, clientIP, now, enabled, choice, rnd);
      if exitIP.None? {
        failedRequests := failedRequests + 1;
        return exitIP, None;
      }
      dialed := HandleRequest(conn, exitIP.value, dial);
    }

    /** A client whose ban is in force is not even read; any other is served. */
    method HandleConn(conn: Conn, clientIP: string, now: Clocks, dial: Dialer,
                      enabled: seq<IPGen.Prefix>, choice: seq<bv8>, rnd: seq<bv8>)
      returns (exitIP: Option<IPGen.Address>, dialed: Option<(Target, int)>)
      requires Valid() && InTime(now) && |choice| == 8 && |rnd| == 16
      requires forall t, port, ip :: dial(t, port, ip).Some? ==> IsLocal(dial(t, port, ip).value)
      modifies this`failedRequests, conn, ban, rt.resolver`draws, rt.store`sess, rt.store`idx, rt.limiter
      ensures Valid()
      ensures old(Barred(clientIP, now)) ==>
        && exitIP.None? && dialed.None? && failedRequests == old(failedRequests)
        && conn.incoming == old(conn.incoming) && conn.sent == old(conn.sent) && rt.store.R() == old(rt.store.R())
      ensures exitIP.Some? ==> old(Greeted(conn.incoming, now)) && rt.HandedOut(exitIP.value)
      ensures !old(Barred(clientIP, now)) ==>
        && (old(Greeted(conn.incoming, now)) && enabled != [] && Admission.AllParsed(enabled) ==> exitIP.Some?)
        && Served(old(conn.incoming), conn.incoming, old(conn.sent), conn.sent, failedRequests - old(failedRequests),
                  exitIP, dial, dialed)
    {
      var banned := ban.IsBanned(clientIP, now.ban);
      if banned {
        return None, None;
      }
      exitIP, dialed := Serve(conn, clientIP, now, dial, enabled, choice, rnd);
    }
  }
}
