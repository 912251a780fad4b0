/**
 Where a run may connect: the endpoint parser and the routing decision of `src/main.rs`.

 A URL is put together from its parts by `Render`; the parser is proved to undo that, and nothing
 else, before the routing decision is.
 */
module Endpoint {
  import opened Base
  import opened Text

  datatype Error = NotWebSocket | BadPort | NoPort | Protected | NoEndpoint | OwnNodeOnly

  const PROTECTED_PORTS: set<nat> := {7509, 7609}
  const U16: nat := 65536

  predicate EndsAuthority(c: char) { c == '/' || c == '?' || c == '#' }

  /** The authority ends at the first slash, question mark or hash. */
  function AuthorityEnd(s: string): (n: nat)
    ensures n <= |s|
    ensures forall i :: 0 <= i < n ==> !EndsAuthority(s[i])
    ensures n < |s| ==> EndsAuthority(s[n])
  {
    if s == [] || EndsAuthority(s[0]) then 0 else 1 + AuthorityEnd(s[1..])
  }

  /** `rsplit_once(c)`: what follows the last `c`. */
  function AfterLast(s: string, c: char): Option<string> {
    if s == [] then None
    else match AfterLast(s[1..], c)
      case Some(rest) => Some(rest)
      case None => if s[0] == c then Some(s[1..]) else None
  }

  function AfterScheme(ws: string): Option<string> {
    match StripPrefix(ws, "ws://")
    case Some(rest) => Some(rest)
    case None => StripPrefix(ws, "wss://")
  }

  /** The text of the port, if the host is followed by one; the colons in brackets are the address's. */
  function PortText(hostport: string): Option<string> {
    if hostport != "" && hostport[0] == '[' then
      var v6 := hostport[1..];
      var close := Before(v6, ']');
      if close == |v6| then None else StripPrefix(v6[close + 1..], ":")
    else AfterLast(hostport, ':')
  }

  /** `rsplit_once('@')`, or all of it when there is no userinfo. */
  function HostPortOf(authority: string): string {
    match AfterLast(authority, '@') case Some(h) => h case None => authority
  }

  function EndpointPort(ws: string): Result<nat, Error> {
    match AfterScheme(ws)
    case None => Err(NotWebSocket)
    case Some(rest) =>
      var authority := rest[..AuthorityEnd(rest)];
      match PortText(HostPortOf(authority))
      case None => Err(NoPort)
      case Some(p) =>
        if p == "" then Err(NoPort)
        else match ParseUnsigned(p, U16)
          case Some(port) => Ok(port)
          case None => Err(BadPort)
  }

  function CheckEndpoint(ws: string, protected: set<nat>): Result<nat, Error> {
    match EndpointPort(ws)
    case Err(e) => Err(e)
    case Ok(port) => if port in protected then Err(Protected) else Ok(port)
  }

  function ResolveTarget(ws: Option<string>, local: bool, startsOwnNode: bool): Result<Option<string>, Error> {
    if startsOwnNode then (if ws.Some? || local then Err(OwnNodeOnly) else Ok(None))
    else match ws
      case None => Err(NoEndpoint)
      case Some(u) =>
        match CheckEndpoint(u, PROTECTED_PORTS)
        case Err(e) => Err(e)
        case Ok(_) => Ok(Some(u))
  }

  /** The subcommand, as far as routing looks at it. */
  datatype Command = Kill9 | Group(readWs: string) | Other

  function TargetOf(ws: Option<string>, local: bool, cmd: Command): Result<Option<string>, Error> {
    match ResolveTarget(ws, local, cmd.Kill9?)
    case Err(e) => Err(e)
    case Ok(target) =>
      if cmd.Group? && CheckEndpoint(cmd.readWs, PROTECTED_PORTS).Err?
      then Err(CheckEndpoint(cmd.readWs, PROTECTED_PORTS).error)
      else Ok(target)
  }

  /* ---------- the URLs that name a port ---------- */

  /** A host name, or an address literal that is written in brackets. */
  datatype Host = Name(name: string) | Literal(address: string)

  /** Section 3.2 of RFC 3986: `[userinfo "@"] host ":" port`, then path, query or fragment. */
  datatype Url = Url(secure: bool, userinfo: Option<string>, host: Host, port: string, tail: string)

  predicate InAuthority(s: string) { forall i :: 0 <= i < |s| ==> !EndsAuthority(s[i]) }

  /** Free of the characters that end the host and the port. */
  ghost predicate Bare(s: string) { InAuthority(s) && '@' !in s }

  ghost predicate WellFormedHost(h: Host) {
    match h
    case Name(n) => Bare(n) && (n != "" ==> n[0] != '[')
    case Literal(a) => Bare(a) && ']' !in a
  }

  ghost predicate WellFormed(u: Url) {
    && (u.userinfo.Some? ==> InAuthority(u.userinfo.value))
    && WellFormedHost(u.host)
    && (u.tail != "" ==> EndsAuthority(u.tail[0]))
  }

  function Scheme(u: Url): string { if u.secure then "wss://" else "ws://" }
  function UserPart(u: Url): string { if u.userinfo.Some? then u.userinfo.value + "@" else "" }
  function HostPart(h: Host): string { match h case Name(n) => n case Literal(a) => "[" + a + "]" }
  function HostPort(u: Url): string { HostPart(u.host) + ":" + u.port }

  function Render(u: Url): string { Scheme(u) + (UserPart(u) + HostPort(u) + u.tail) }

  lemma {:induction false} AfterLastIs(a: string, c: char, b: string)
    requires c !in b
    ensures AfterLast(a + [c] + b, c) == Some(b)
  {
    if a == "" {
      NoLast(b, c);
      assert ("" + [c] + b)[1..] == b;
    } else {
      AfterLastIs(a[1..], c, b);
      assert (a + [c] + b)[1..] == a[1..] + [c] + b;
    }
  }

  lemma {:induction false} NoLast(s: string, c: char)
    ensures AfterLast(s, c).None? <==> c !in s
  {
    if s != "" {
      NoLast(s[1..], c);
      assert s == [s[0]] + s[1..];
    }
  }

  lemma {:induction false} LastSplits(s: string, c: char)
    requires AfterLast(s, c).Some?
    ensures var b := AfterLast(s, c).value;
            |b| < |s| && c !in b && s == s[..|s| - |b| - 1] + [c] + b
  {
    NoLast(s[1..], c);
    if AfterLast(s[1..], c).Some? {
      LastSplits(s[1..], c);
      var b := AfterLast(s, c).value;
      var t := s[1..];
      assert s == [s[0]] + t;
      assert s[..|s| - |b| - 1] == [s[0]] + t[..|t| - |b| - 1];
    } else {
      assert s == s[..0] + [c] + s[1..];
    }
  }

  lemma AuthorityIs(a: string, tail: string)
    requires InAuthority(a) && (tail != "" ==> EndsAuthority(tail[0]))
    ensures (a + tail)[..AuthorityEnd(a + tail)] == a
  {
    var s := a + tail;
    var n := AuthorityEnd(s);
    assert forall i :: 0 <= i < |a| ==> s[i] == a[i];
    assert tail != "" ==> s[|a|] == tail[0];
    assert n == |a|;
  }

  lemma SchemeIs(u: Url)
    ensures AfterScheme(Render(u)) == Some(UserPart(u) + HostPort(u) + u.tail)
  {
    var rest := UserPart(u) + HostPort(u) + u.tail;
    StripPrefixOf(Scheme(u), rest);
    if u.secure {
      assert Render(u)[2] == 's' && "ws://"[2] == ':';
    }
  }

  lemma LiteralPortIs(a: string, port: string)
    requires ']' !in a
    ensures PortText("[" + a + "]" + ":" + port) == Some(port)
  {
    var hostport, v6 := "[" + a + "]" + ":" + port, a + "]" + (":" + port);
    assert hostport[1..] == v6;
    BeforeIs(a, ']', ":" + port);
    assert v6[|a| + 1..] == ":" + port;
    StripPrefixOf(":", port);
  }

  lemma NamePortIs(n: string, port: string)
    requires ':' !in port && (n != "" ==> n[0] != '[')
    ensures PortText(n + ":" + port) == Some(port)
  {
    AfterLastIs(n, ':', port);
    assert n != "" ==> (n + ":" + port)[0] == n[0];
  }

  lemma BareJoins(a: string, b: string)
    ensures Bare(a + b) <==> Bare(a) && Bare(b)
  {
    if Bare(a + b) {
      forall i | 0 <= i < |a| ensures a[i] == (a + b)[i] {}
      forall i | 0 <= i < |b| ensures b[i] == (a + b)[|a| + i] {}
    }
  }

  lemma HostPortIsBare(u: Url)
    requires WellFormed(u) && Bare(u.port)
    ensures Bare(HostPort(u))
  {
    BareJoins(HostPart(u.host), ":");
    BareJoins(HostPart(u.host) + ":", u.port);
    if u.host.Literal? {
      BareJoins("[", u.host.address);
      BareJoins("[" + u.host.address, "]");
    }
  }

  lemma HostPortIs(u: Url)
    requires WellFormed(u) && ':' !in u.port
    ensures PortText(HostPort(u)) == Some(u.port)
  {
    match u.host {
      case Name(n) => NamePortIs(n, u.port);
      case Literal(a) => LiteralPortIs(a, u.port);
    }
  }

  lemma RenderedPort(u: Url, p: nat)
    requires WellFormed(u) && ParseUnsigned(u.port, U16) == Some(p)
    ensures EndpointPort(Render(u)) == Ok(p)
  {
    var authority := UserPart(u) + HostPort(u);
    SchemeIs(u);
    HostPortIs(u);
    HostPortIsBare(u);
    AuthorityIs(authority, u.tail);
    if u.userinfo.Some? {
      assert authority == u.userinfo.value + "@" + HostPort(u);
      AfterLastIs(u.userinfo.value, '@', HostPort(u));
    } else {
      assert authority == HostPort(u);
      NoLast(authority, '@');
    }
  }

  lemma SplitHost(hostport: string) returns (host: Host, port: string)
    requires PortText(hostport).Some? && Bare(hostport)
    ensures hostport == HostPart(host) + ":" + port && PortText(hostport) == Some(port)
    ensures WellFormedHost(host)
  {
    port := PortText(hostport).value;
    if hostport != "" && hostport[0] == '[' {
      var v6 := hostport[1..];
      var close := Before(v6, ']');
      var a := v6[..close];
      host := Literal(a);
      assert v6[close + 1..] == ":" + port;
      assert hostport == "[" + a + "]" + (":" + port);
      forall i | 0 <= i < |a| ensures a[i] in hostport && a[i] == hostport[i + 1] {}
    } else {
      LastSplits(hostport, ':');
      host := Name(hostport[..|hostport| - |port| - 1]);
    }
  }

  lemma SplitUser(authority: string) returns (userinfo: Option<string>)
    requires InAuthority(authority)
    ensures Bare(HostPortOf(authority)) && (userinfo.Some? ==> InAuthority(userinfo.value))
    ensures authority == (if userinfo.Some? then userinfo.value + "@" else "") + HostPortOf(authority)
  {
    NoLast(authority, '@');
    userinfo := None;
    if AfterLast(authority, '@').Some? {
      LastSplits(authority, '@');
      var h := HostPortOf(authority);
      var k := |authority| - |h| - 1;
      userinfo := Some(authority[..k]);
      forall i | 0 <= i < |h| ensures h[i] == authority[k + 1 + i] {}
    }
  }

  lemma SplitScheme(ws: string) returns (secure: bool)
    requires AfterScheme(ws).Some?
    ensures ws == (if secure then "wss://" else "ws://") + AfterScheme(ws).value
  {
    secure := StripPrefix(ws, "ws://").None?;
  }

  /** The URL put together from a scheme and a parsed authority. */
  lemma Assembled(u: Url, ws: string, rest: string, n: nat)
    requires ws == (if u.secure then "wss://" else "ws://") + rest
    requires n <= |rest| && u.tail == rest[n..]
    requires rest[..n] == (if u.userinfo.Some? then u.userinfo.value + "@" else "") + (HostPart(u.host) + ":" + u.port)
    ensures Render(u) == ws
  {
    assert rest == rest[..n] + rest[n..];
    assert rest[..n] == UserPart(u) + HostPort(u);
  }

  lemma PortFound(ws: string, p: nat)
    requires EndpointPort(ws) == Ok(p)
    ensures AfterScheme(ws).Some?
    ensures var rest := AfterScheme(ws).value;
            var text := PortText(HostPortOf(rest[..AuthorityEnd(rest)]));
            text.Some? && ParseUnsigned(text.value, U16) == Some(p)
  {}

  /** The URL a string is, when the parser finds a port in it. */
  lemma ParsedUrl(ws: string, p: nat) returns (u: Url)
    requires EndpointPort(ws) == Ok(p)
    ensures WellFormed(u) && Render(u) == ws && ParseUnsigned(u.port, U16) == Some(p)
  {
    PortFound(ws, p);
    var secure := SplitScheme(ws);
    var rest := AfterScheme(ws).value;
    var n := AuthorityEnd(rest);
    var userinfo := SplitUser(rest[..n]);
    var host, port := SplitHost(HostPortOf(rest[..n]));
    u := Url(secure, userinfo, host, port, rest[n..]);
    Assembled(u, ws, rest, n);
  }

  /**
   The parser finds a port in exactly the URLs that name one explicitly, and finds that port:
   whatever the userinfo, the host, the brackets, or what follows.
   */
  lemma EndpointPortIff(ws: string, p: nat)
    ensures EndpointPort(ws) == Ok(p)
            <==> exists u :: WellFormed(u) && Render(u) == ws && ParseUnsigned(u.port, U16) == Some(p)
  {
    if EndpointPort(ws) == Ok(p) {
      var u := ParsedUrl(ws, p);
    }
    if u :| WellFormed(u) && Render(u) == ws && ParseUnsigned(u.port, U16) == Some(p) {
      RenderedPort(u, p);
    }
  }

  /** An explicit endpoint names this unprotected port. */
  ghost predicate Allowed(ws: string) {
    exists u, p :: WellFormed(u) && Render(u) == ws && ParseUnsigned(u.port, U16) == Some(p) && p != 7509 && p != 7609
  }

  lemma AllowedIff(ws: string)
    ensures CheckEndpoint(ws, PROTECTED_PORTS).Ok? <==> Allowed(ws)
  {
    if CheckEndpoint(ws, PROTECTED_PORTS).Ok? {
      var p := EndpointPort(ws).value;
      EndpointPortIff(ws, p);
      var u :| WellFormed(u) && Render(u) == ws && ParseUnsigned(u.port, U16) == Some(p);
      assert p !in PROTECTED_PORTS;
    }
    if Allowed(ws) {
      var u, p :| WellFormed(u) && Render(u) == ws && ParseUnsigned(u.port, U16) == Some(p) && p != 7509 && p != 7609;
      EndpointPortIff(ws, p);
    }
  }

  /**
   Routing, for every combination of flags: a run that connects connects to the endpoint it was
   given, which is allowed, as is a group's reading endpoint; `local` never changes where.
   */
  lemma TargetIsTheEndpointGiven(ws: Option<string>, local: bool, cmd: Command)
    ensures TargetOf(ws, local, cmd).Ok? <==>
              if cmd.Kill9? then ws.None? && !local
              else ws.Some? && Allowed(ws.value) && (cmd.Group? ==> Allowed(cmd.readWs))
    ensures TargetOf(ws, local, cmd).Ok? ==> TargetOf(ws, local, cmd).value == ws
    ensures !cmd.Kill9? ==> TargetOf(ws, local, cmd) == TargetOf(ws, !local, cmd)
  {
    if ws.Some? {
      AllowedIff(ws.value);
    }
    if cmd.Group? {
      AllowedIff(cmd.readWs);
    }
  }
}
