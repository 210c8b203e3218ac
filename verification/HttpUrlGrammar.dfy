/** The URLs that `http_parser_parse_url` accepts, as a grammar: what can be written from these parts is
    accepted and read back into exactly the parts, and nothing else is accepted. */
module HttpUrlGrammar {
  import opened Common
  import opened HttpUrl

  // ---------------------------------------------------------------- characters

  predicate Letter(b: byte) { 'a' <= b as char <= 'z' || 'A' <= b as char <= 'Z' }

  predicate Digit(b: byte) { '0' <= b as char <= '9' }

  predicate UserinfoByte(b: byte) {
    Letter(b) || Digit(b)
    || b as char in {'-', '_', '.', '!', '~', '*', '\'', '(', ')', '%', ';', ':', '&', '=', '+', '$', ','}
  }

  predicate HostByte(b: byte) { Letter(b) || Digit(b) || b as char in {'.', '-'} }

  predicate AddressByte(b: byte) {
    Digit(b) || 'a' <= b as char <= 'f' || 'A' <= b as char <= 'F' || b as char in {':', '.'}
  }

  predicate ZoneByte(b: byte) { Letter(b) || Digit(b) || b as char in {'%', '.', '-', '_', '~'} }

  predicate PathByte(b: byte) { '!' <= b as char <= '~' && b as char !in {'#', '?'} }

  predicate QueryByte(b: byte) { '!' <= b as char <= '~' && b as char != '#' }

  predicate FragmentByte(b: byte) { '!' <= b as char <= '~' }

  predicate Only(bytes: seq<byte>, P: byte -> bool) { forall i :: 0 <= i < |bytes| ==> P(bytes[i]) }

  const SLASH: byte := '/' as int
  const STAR: byte := '*' as int
  const COLON: byte := ':' as int
  const AT: byte := '@' as int
  const QUESTION: byte := '?' as int
  const HASH: byte := '#' as int
  const OPEN: byte := '[' as int
  const CLOSE: byte := ']' as int
  const PERCENT: byte := '%' as int

  // ---------------------------------------------------------------- the grammar

  datatype Host = Name(text: seq<byte>) | Literal(address: seq<byte>, zone: Option<seq<byte>>)

  datatype Authority = Authority(userinfo: Option<seq<byte>>, host: Host, port: Option<seq<byte>>)

  // The fragment begins behind the last of the `hashes`.
  datatype Tail = Tail(path: seq<byte>, query: Option<seq<byte>>, hashes: nat, fragment: seq<byte>)

  datatype Url =
    | Origin(tail: Tail)
    | Absolute(schema: seq<byte>, authority: Authority, tail: Tail)
    | ConnectTo(authority: Authority, tail: Tail)

  function QueryText(query: Option<seq<byte>>): seq<byte> {
    match query case None => [] case Some(text) => [QUESTION] + text
  }

  function HashText(hashes: nat, fragment: seq<byte>): seq<byte> { seq(hashes, _ => HASH) + fragment }

  function WriteTail(t: Tail): seq<byte> { t.path + (QueryText(t.query) + HashText(t.hashes, t.fragment)) }

  function ZoneText(zone: Option<seq<byte>>): seq<byte> {
    match zone case None => [] case Some(text) => [PERCENT] + text
  }

  function WriteHost(h: Host): seq<byte> {
    match h
    case Name(text) => text
    case Literal(address, zone) => [OPEN] + (address + (ZoneText(zone) + [CLOSE]))
  }

  function UserText(userinfo: Option<seq<byte>>): seq<byte> {
    match userinfo case None => [] case Some(text) => text + [AT]
  }

  function PortText(port: Option<seq<byte>>): seq<byte> {
    match port case None => [] case Some(text) => [COLON] + text
  }

  function WriteAuthority(a: Authority): seq<byte> { UserText(a.userinfo) + (WriteHost(a.host) + PortText(a.port)) }

  function Write(u: Url): seq<byte> {
    match u
    case Origin(tail) => WriteTail(tail)
    case Absolute(schema, authority, tail) =>
      schema + ([COLON, SLASH, SLASH] + (WriteAuthority(authority) + WriteTail(tail)))
    case ConnectTo(authority, tail) => WriteAuthority(authority) + WriteTail(tail)
  }

  predicate WfTail(t: Tail) {
    && (t.path != [] ==> Only(t.path[1..], PathByte))
    && (t.query.Some? ==> Only(t.query.value, QueryByte))
    && Only(t.fragment, FragmentByte)
    && (t.fragment != [] ==> t.hashes > 0 && t.fragment[0] != HASH)
  }

  predicate WfHost(h: Host) {
    match h
    case Name(text) => text != [] && Only(text, HostByte)
    case Literal(address, zone) =>
      && address != [] && Only(address, AddressByte)
      && (zone.Some? ==> zone.value != [] && Only(zone.value, ZoneByte))
  }

  predicate WfAuthority(a: Authority) {
    && WfHost(a.host)
    && (a.userinfo.Some? ==> Only(a.userinfo.value, UserinfoByte))
    && (a.port.Some? ==> a.port.value != [] && Only(a.port.value, Digit))
  }

  // Behind an authority a path begins with '/', and a '#' needs a path or a '?' in front.
  predicate WfBehind(t: Tail) {
    && WfTail(t) && (t.path != [] ==> t.path[0] == SLASH)
    && (t.path == [] && t.query.None? ==> t.hashes == 0)
  }

  predicate WfUrl(u: Url) {
    match u
    case Origin(t) =>
      && WfTail(t)
      && if t.path == [] then t.query.None? && t.hashes == 0 else t.path[0] == SLASH || t.path[0] == STAR
    case Absolute(schema, authority, t) => schema != [] && Only(schema, Letter) && WfAuthority(authority) && WfBehind(t)
    case ConnectTo(authority, t) => WfAuthority(authority) && WfBehind(t)
  }

  // The decimal value, digit by digit.
  function ValueOf(digits: seq<byte>): int {
    if digits == [] then 0 else ValueOf(digits[..|digits| - 1]) * 10 + (digits[|digits| - 1] - '0' as int)
  }

  // The form that CONNECT takes is the only one with nothing but host and port in it: no text of a user,
  // no path, no query and no fragment, though their marks '@', '?' and '#' may be there.
  predicate Allowed(connect: bool, u: Url) {
    && WfUrl(u) && (connect <==> u.ConnectTo?)
    && (!u.Origin? && u.authority.port.Some? ==> ValueOf(u.authority.port.value) <= 65535)
    && (u.ConnectTo? ==>
          && u.authority.port.Some? && u.authority.userinfo in {None, Some([])}
          && u.tail.path == [] && u.tail.query in {None, Some([])} && u.tail.fragment == [])
  }

  function HostText(h: Host): seq<byte> {
    match h case Name(text) => text case Literal(address, zone) => address + ZoneText(zone)
  }

  function Text(o: Option<seq<byte>>): seq<byte> { match o case None => [] case Some(text) => text }

  // The parts that a caller should find.
  function Part(u: Url, uf: Field): seq<byte> {
    match uf
    case FSchema => if u.Absolute? then u.schema else []
    case FUserinfo => if u.Origin? then [] else Text(u.authority.userinfo)
    case FHost => if u.Origin? then [] else HostText(u.authority.host)
    case FPort => if u.Origin? then [] else Text(u.authority.port)
    case FPath => u.tail.path
    case FQuery => Text(u.tail.query)
    case FFragment => u.tail.fragment
  }

  // ---------------------------------------------------------------- running a machine

  function Drive<S>(step: (S, byte) -> S, s: S, bytes: seq<byte>): S {
    if bytes == [] then s else step(Drive(step, s, bytes[..|bytes| - 1]), bytes[|bytes| - 1])
  }

  function Collect<S>(step: (S, byte) -> S, kind: S -> Option<Field>, s: S, bytes: seq<byte>, uf: Field): seq<byte> {
    if bytes == [] then []
    else
      Collect(step, kind, s, bytes[..|bytes| - 1], uf)
      + if kind(Drive(step, s, bytes)) == Some(uf) then [bytes[|bytes| - 1]] else []
  }

  lemma {:induction false} Appended<S>(step: (S, byte) -> S, kind: S -> Option<Field>, s: S, a: seq<byte>, b: seq<byte>, uf: Field)
    ensures Drive(step, s, a + b) == Drive(step, Drive(step, s, a), b)
    ensures Collect(step, kind, s, a + b, uf)
         == Collect(step, kind, s, a, uf) + Collect(step, kind, Drive(step, s, a), b, uf)
    decreases |b|
  {
    if b == [] {
      assert a + b == a;
    } else {
      var front, last := b[..|b| - 1], b[|b| - 1];
      assert (a + b)[..|a + b| - 1] == a + front && (a + b)[|a + b| - 1] == last;
      Appended(step, kind, s, a, front, uf);
    }
  }

  // A state that all these bytes lead back to.
  lemma {:induction false} Loops<S>(step: (S, byte) -> S, kind: S -> Option<Field>, s: S, bytes: seq<byte>, uf: Field)
    requires forall i :: 0 <= i < |bytes| ==> step(s, bytes[i]) == s
    ensures Drive(step, s, bytes) == s
    ensures Collect(step, kind, s, bytes, uf) == if kind(s) == Some(uf) then bytes else []
    decreases |bytes|
  {
    if bytes != [] {
      var front := bytes[..|bytes| - 1];
      Loops(step, kind, s, front, uf);
      assert bytes == front + [bytes[|bytes| - 1]];
    }
  }

  // The first byte leads into such a state.
  lemma Enters<S>(step: (S, byte) -> S, kind: S -> Option<Field>, s: S, t: S, bytes: seq<byte>, uf: Field)
    requires bytes != [] && step(s, bytes[0]) == t
    requires forall i :: 1 <= i < |bytes| ==> step(t, bytes[i]) == t
    ensures Drive(step, s, bytes) == t
    ensures Collect(step, kind, s, bytes, uf) == if kind(t) == Some(uf) then bytes else []
  {
    assert bytes == [bytes[0]] + bytes[1..];
    Appended(step, kind, s, [bytes[0]], bytes[1..], uf);
    Loops(step, kind, t, bytes[1..], uf);
    One(step, kind, s, bytes[0], uf);
  }

  lemma One<S>(step: (S, byte) -> S, kind: S -> Option<Field>, s: S, b: byte, uf: Field)
    ensures Drive(step, s, [b]) == step(s, b)
    ensures Collect(step, kind, s, [b], uf) == if kind(step(s, b)) == Some(uf) then [b] else []
  {
    assert [b][..0] == [];
  }

  function UrlDrive(s: UrlState, bytes: seq<byte>): UrlState { Drive(ParseUrlChar, s, bytes) }

  function UrlPart(s: UrlState, bytes: seq<byte>, uf: Field): seq<byte> { Collect(ParseUrlChar, FieldOf, s, bytes, uf) }

  function HostDrive(s: HostState, bytes: seq<byte>): HostState { Drive(ParseHostChar, s, bytes) }

  function HostPiece(s: HostState, bytes: seq<byte>, uf: Field): seq<byte> {
    Collect(ParseHostChar, HostFieldOf, s, bytes, uf)
  }

  lemma UrlAppended(s: UrlState, a: seq<byte>, b: seq<byte>, uf: Field)
    ensures UrlDrive(s, a + b) == UrlDrive(UrlDrive(s, a), b)
    ensures UrlPart(s, a + b, uf) == UrlPart(s, a, uf) + UrlPart(UrlDrive(s, a), b, uf)
  {
    Appended(ParseUrlChar, FieldOf, s, a, b, uf);
  }

  lemma HostAppended(s: HostState, a: seq<byte>, b: seq<byte>, uf: Field)
    ensures HostDrive(s, a + b) == HostDrive(HostDrive(s, a), b)
    ensures HostPiece(s, a + b, uf) == HostPiece(s, a, uf) + HostPiece(HostDrive(s, a), b, uf)
  {
    Appended(ParseHostChar, HostFieldOf, s, a, b, uf);
  }

  // ---------------------------------------------------------------- writing: the whole URL

  lemma FragmentRun(s: UrlState, hashes: nat, fragment: seq<byte>, uf: Field)
    requires hashes > 0 ==> s.Path? || s.QueryStart? || s.Query?
    requires Only(fragment, FragmentByte) && (fragment != [] ==> hashes > 0 && fragment[0] != HASH)
    ensures var bytes := HashText(hashes, fragment);
      && (hashes == 0 ==> UrlDrive(s, bytes) == s)
      && (hashes > 0 ==> UrlDrive(s, bytes) == if fragment == [] then FragmentStart else Fragment)
      && UrlPart(s, bytes, uf) == if uf == FFragment then fragment else []
  {
    hide Drive, Collect;
    UrlAppended(s, seq(hashes, _ => HASH), fragment, uf);
    NothingRun(s, uf);
    if hashes > 0 {
      HashRun(s, hashes, uf);
      FragmentRest(fragment, uf);
    }
  }

  lemma HashRun(s: UrlState, hashes: nat, uf: Field)
    requires hashes > 0 && (s.Path? || s.QueryStart? || s.Query?)
    ensures UrlDrive(s, seq(hashes, _ => HASH)) == FragmentStart && UrlPart(s, seq(hashes, _ => HASH), uf) == []
  {
    hide Drive, Collect;
    var marks: seq<byte> := seq(hashes, _ => HASH);
    assert marks != [] && marks[0] == HASH && forall i :: 1 <= i < |marks| ==> marks[i] == HASH;
    assert ParseUrlChar(s, HASH) == FragmentStart && ParseUrlChar(FragmentStart, HASH) == FragmentStart;
    hide ParseUrlChar;
    Enters(ParseUrlChar, FieldOf, s, FragmentStart, marks, uf);
  }

  lemma FragmentRest(text: seq<byte>, uf: Field)
    requires Only(text, FragmentByte) && (text != [] ==> text[0] != HASH)
    ensures UrlDrive(FragmentStart, text) == if text == [] then FragmentStart else Fragment
    ensures UrlPart(FragmentStart, text, uf) == if uf == FFragment then text else []
  {
    hide Drive, Collect;
    NothingRun(FragmentStart, uf);
    if text != [] { Enters(ParseUrlChar, FieldOf, FragmentStart, Fragment, text, uf); }
  }

  lemma NothingRun(s: UrlState, uf: Field)
    ensures UrlDrive(s, []) == s && UrlPart(s, [], uf) == []
  {
  }

  lemma QueryRest(text: seq<byte>, uf: Field)
    requires Only(text, QueryByte)
    ensures UrlDrive(QueryStart, text) == if text == [] then QueryStart else Query
    ensures UrlPart(QueryStart, text, uf) == if uf == FQuery then text else []
  {
    hide Drive, Collect;
    NothingRun(QueryStart, uf);
    if text != [] { Enters(ParseUrlChar, FieldOf, QueryStart, Query, text, uf); }
  }

  lemma QueryRun(s: UrlState, query: Option<seq<byte>>, uf: Field)
    requires s.Server? || s.Path? || (query.None? && s.SpacesBeforeUrl?)
    requires query.Some? ==> Only(query.value, QueryByte)
    ensures UrlDrive(s, QueryText(query)) == match query case None => s case Some(t) => if t == [] then QueryStart else Query
    ensures UrlPart(s, QueryText(query), uf) == if uf == FQuery then Text(query) else []
  {
    hide Drive, Collect;
    if query.Some? {
      UrlAppended(s, [QUESTION], query.value, uf);
      OneUrl(s, QUESTION, uf);
      QueryRest(query.value, uf);
    } else {
      NothingRun(s, uf);
    }
  }

  lemma PathRun(s: UrlState, path: seq<byte>, uf: Field)
    requires path != [] ==> Only(path[1..], PathByte)
    requires path != [] ==> (s.Server? && path[0] == SLASH) || (s.SpacesBeforeUrl? && (path[0] == SLASH || path[0] == STAR))
    ensures UrlDrive(s, path) == if path == [] then s else Path
    ensures UrlPart(s, path, uf) == if uf == FPath then path else []
  {
    hide Drive, Collect;
    NothingRun(s, uf);
    if path != [] {
      assert forall i :: 1 <= i < |path| ==> path[i] == path[1..][i - 1];
      Enters(ParseUrlChar, FieldOf, s, Path, path, uf);
    }
  }

  function TailPart(t: Tail, uf: Field): seq<byte> {
    match uf
    case FPath => t.path
    case FQuery => Text(t.query)
    case FFragment => t.fragment
    case _ => []
  }

  lemma TailRun(s: UrlState, t: Tail, uf: Field)
    requires if s.SpacesBeforeUrl? then WfUrl(Origin(t)) else s.Server? && WfBehind(t)
    ensures !UrlDrive(s, WriteTail(t)).UrlDead?
    ensures UrlPart(s, WriteTail(t), uf) == TailPart(t, uf)
  {
    hide Drive, Collect, Only, ParseUrlChar, UrlDrive, UrlPart, QueryText, HashText;
    PathRun(s, t.path, uf);
    var p := UrlDrive(s, t.path);
    QueryRun(p, t.query, uf);
    var q := UrlDrive(p, QueryText(t.query));
    FragmentRun(q, t.hashes, t.fragment, uf);
    UrlAppended(p, QueryText(t.query), HashText(t.hashes, t.fragment), uf);
    UrlAppended(s, t.path, QueryText(t.query) + HashText(t.hashes, t.fragment), uf);
  }

  predicate ServerByte(b: byte) { UserinfoByte(b) || b == OPEN || b == CLOSE }

  // The bytes of an authority without '@'.
  lemma ServerRun(s: UrlState, bytes: seq<byte>, uf: Field)
    requires (s.ServerStart? || s.Server? || s.ServerWithAt?) && Only(bytes, ServerByte)
    ensures UrlDrive(s, bytes) == if bytes == [] then s else Server
    ensures UrlPart(s, bytes, uf) == if uf == FHost then bytes else []
  {
    hide Drive, Collect;
    NothingRun(s, uf);
    if bytes != [] { Enters(ParseUrlChar, FieldOf, s, Server, bytes, uf); }
  }

  lemma AuthorityRun(a: Authority, uf: Field)
    requires WfAuthority(a)
    ensures UrlDrive(ServerStart, WriteAuthority(a)) == Server
    ensures UrlPart(ServerStart, WriteAuthority(a), uf) == if uf == FHost then WriteAuthority(a) else []
  {
    var back := WriteHost(a.host) + PortText(a.port);
    ServerBytes(a);
    hide Drive, Collect, Only, WriteHost, PortText, UrlDrive, UrlPart, ParseUrlChar, WfHost;
    UserUrlRun(a.userinfo, uf);
    var s := if a.userinfo.Some? then ServerWithAt else ServerStart;
    ServerRun(s, back, uf);
    UrlAppended(ServerStart, UserText(a.userinfo), back, uf);
  }

  lemma UserUrlRun(userinfo: Option<seq<byte>>, uf: Field)
    requires userinfo.Some? ==> Only(userinfo.value, ServerByte)
    ensures UrlDrive(ServerStart, UserText(userinfo)) == if userinfo.Some? then ServerWithAt else ServerStart
    ensures UrlPart(ServerStart, UserText(userinfo), uf) == if uf == FHost then UserText(userinfo) else []
  {
    hide Drive, Collect, UrlDrive, UrlPart;
    if userinfo.Some? {
      ServerRun(ServerStart, userinfo.value, uf);
      var s := UrlDrive(ServerStart, userinfo.value);
      UrlAppended(ServerStart, userinfo.value, [AT], uf);
      OneUrl(s, AT, uf);
    } else {
      NothingRun(ServerStart, uf);
    }
  }

  lemma OneUrl(s: UrlState, b: byte, uf: Field)
    ensures UrlDrive(s, [b]) == ParseUrlChar(s, b)
    ensures UrlPart(s, [b], uf) == if FieldOf(ParseUrlChar(s, b)) == Some(uf) then [b] else []
  {
    One(ParseUrlChar, FieldOf, s, b, uf);
  }

  lemma ServerBytes(a: Authority)
    requires WfAuthority(a)
    ensures WriteHost(a.host) != [] && Only(WriteHost(a.host) + PortText(a.port), ServerByte)
    ensures a.userinfo.Some? ==> Only(a.userinfo.value, ServerByte)
  {
    HostBytes(a.host);
    hide WriteHost, WfHost;
    assert Only(PortText(a.port), ServerByte);
  }

  lemma HostBytes(h: Host)
    requires WfHost(h)
    ensures WriteHost(h) != [] && Only(WriteHost(h), ServerByte)
  {
    if h.Literal? {
      assert Only(ZoneText(h.zone), ServerByte);
      assert Only(h.address, ServerByte);
    }
  }

  lemma SchemaRun(schema: seq<byte>, uf: Field)
    requires schema != [] && Only(schema, Letter)
    ensures UrlDrive(SpacesBeforeUrl, schema + [COLON, SLASH, SLASH]) == ServerStart
    ensures UrlPart(SpacesBeforeUrl, schema + [COLON, SLASH, SLASH], uf) == if uf == FSchema then schema else []
  {
    hide Drive, Collect;
    Enters(ParseUrlChar, FieldOf, SpacesBeforeUrl, Schema, schema, uf);
    hide ParseUrlChar, Only;
    UrlAppended(SpacesBeforeUrl, schema, [COLON, SLASH, SLASH], uf);
    ColonSlashes(uf);
  }

  lemma ColonSlashes(uf: Field)
    ensures UrlDrive(Schema, [COLON, SLASH, SLASH]) == ServerStart && UrlPart(Schema, [COLON, SLASH, SLASH], uf) == []
  {
    hide Drive, Collect, UrlDrive, UrlPart;
    assert [COLON, SLASH, SLASH] == [COLON] + ([SLASH] + [SLASH]);
    OneUrl(Schema, COLON, uf);
    OneUrl(SchemaSlash, SLASH, uf);
    OneUrl(SchemaSlashSlash, SLASH, uf);
    UrlAppended(SchemaSlash, [SLASH], [SLASH], uf);
    UrlAppended(Schema, [COLON], [SLASH] + [SLASH], uf);
  }

  // What the scan makes of a written URL: the authority is still in one piece.
  function ScanPart(u: Url, uf: Field): seq<byte> {
    match uf
    case FSchema => if u.Absolute? then u.schema else []
    case FHost => if u.Origin? then [] else WriteAuthority(u.authority)
    case FUserinfo => []
    case FPort => []
    case _ => TailPart(u.tail, uf)
  }

  lemma UrlRun(u: Url, uf: Field)
    requires WfUrl(u)
    ensures var s := UrlStart(u.ConnectTo?);
      !UrlDrive(s, Write(u)).UrlDead? && UrlPart(s, Write(u), uf) == ScanPart(u, uf)
  {
    hide Drive, Collect, Only, ParseUrlChar, UrlDrive, UrlPart, WriteTail, WriteAuthority;
    match u
    case Origin(t) => TailRun(SpacesBeforeUrl, t, uf);
    case Absolute(schema, a, t) =>
      var head, rest := schema + [COLON, SLASH, SLASH], WriteAuthority(a) + WriteTail(t);
      assert Write(u) == head + rest;
      SchemaRun(schema, uf);
      AuthorityRun(a, uf);
      TailRun(Server, t, uf);
      UrlAppended(ServerStart, WriteAuthority(a), WriteTail(t), uf);
      UrlAppended(SpacesBeforeUrl, head, rest, uf);
    case ConnectTo(a, t) =>
      AuthorityRun(a, uf);
      TailRun(Server, t, uf);
      UrlAppended(ServerStart, WriteAuthority(a), WriteTail(t), uf);
  }

  // ---------------------------------------------------------------- writing: the authority

  lemma OneHost(s: HostState, b: byte, uf: Field)
    ensures HostDrive(s, [b]) == ParseHostChar(s, b)
    ensures HostPiece(s, [b], uf) == if HostFieldOf(ParseHostChar(s, b)) == Some(uf) then [b] else []
  {
    One(ParseHostChar, HostFieldOf, s, b, uf);
  }

  lemma NoHostRun(s: HostState, uf: Field)
    ensures HostDrive(s, []) == s && HostPiece(s, [], uf) == []
  {
  }

  lemma NameRun(text: seq<byte>, uf: Field)
    requires text != [] && Only(text, HostByte)
    ensures HostDrive(HostStart, text) == HttpUrl.Host && HostPiece(HostStart, text, uf) == if uf == FHost then text else []
  {
    hide Drive, Collect;
    Enters(ParseHostChar, HostFieldOf, HostStart, HttpUrl.Host, text, uf);
  }

  lemma AddressRun(text: seq<byte>, uf: Field)
    requires text != [] && Only(text, AddressByte)
    ensures HostDrive(V6Start, text) == V6 && HostPiece(V6Start, text, uf) == if uf == FHost then text else []
  {
    hide Drive, Collect;
    Enters(ParseHostChar, HostFieldOf, V6Start, V6, text, uf);
  }

  lemma ZoneRun(zone: Option<seq<byte>>, uf: Field)
    requires zone.Some? ==> zone.value != [] && Only(zone.value, ZoneByte)
    ensures HostDrive(V6, ZoneText(zone)) == if zone.Some? then V6Zone else V6
    ensures HostPiece(V6, ZoneText(zone), uf) == if uf == FHost then ZoneText(zone) else []
  {
    hide Drive, Collect;
    if zone.Some? {
      HostAppended(V6, [PERCENT], zone.value, uf);
      OneHost(V6, PERCENT, uf);
      Enters(ParseHostChar, HostFieldOf, V6ZoneStart, V6Zone, zone.value, uf);
    } else {
      NoHostRun(V6, uf);
    }
  }

  lemma HostRun(h: Host, uf: Field)
    requires WfHost(h)
    ensures HostDrive(HostStart, WriteHost(h)) == if h.Name? then HttpUrl.Host else V6End
    ensures HostPiece(HostStart, WriteHost(h), uf) == if uf == FHost then HostText(h) else []
  {
    hide Drive, Collect, HostDrive, HostPiece, Only, ZoneText;
    match h
    case Name(text) => NameRun(text, uf);
    case Literal(address, zone) =>
      OneHost(HostStart, OPEN, uf);
      AddressRun(address, uf);
      ZoneRun(zone, uf);
      var z := if zone.Some? then V6Zone else V6;
      OneHost(z, CLOSE, uf);
      HostAppended(V6, ZoneText(zone), [CLOSE], uf);
      HostAppended(V6Start, address, ZoneText(zone) + [CLOSE], uf);
      HostAppended(HostStart, [OPEN], address + (ZoneText(zone) + [CLOSE]), uf);
  }

  lemma PortRun(s: HostState, port: Option<seq<byte>>, uf: Field)
    requires (s.Host? || s.V6End?) && (port.Some? ==> port.value != [] && Only(port.value, Digit))
    ensures HostDrive(s, PortText(port)) == if port.Some? then Port else s
    ensures HostPiece(s, PortText(port), uf) == if uf == FPort then Text(port) else []
  {
    hide Drive, Collect;
    if port.Some? {
      HostAppended(s, [COLON], port.value, uf);
      OneHost(s, COLON, uf);
      Enters(ParseHostChar, HostFieldOf, PortStart, Port, port.value, uf);
    } else {
      NoHostRun(s, uf);
    }
  }

  lemma UserRun(userinfo: Option<seq<byte>>, uf: Field)
    requires userinfo.Some? ==> Only(userinfo.value, UserinfoByte)
    ensures HostDrive(HostBegin(userinfo.Some?), UserText(userinfo)) == HostStart
    ensures HostPiece(HostBegin(userinfo.Some?), UserText(userinfo), uf) == if uf == FUserinfo then Text(userinfo) else []
  {
    hide Drive, Collect;
    if userinfo.Some? {
      var text := userinfo.value;
      HostAppended(UserinfoStart, text, [AT], uf);
      NoHostRun(UserinfoStart, uf);
      if text != [] { Enters(ParseHostChar, HostFieldOf, UserinfoStart, Userinfo, text, uf); }
      OneHost(if text == [] then UserinfoStart else Userinfo, AT, uf);
    } else {
      NoHostRun(HostStart, uf);
    }
  }

  function AuthorityPart(a: Authority, uf: Field): seq<byte> {
    match uf
    case FUserinfo => Text(a.userinfo)
    case FHost => HostText(a.host)
    case FPort => Text(a.port)
    case _ => []
  }

  lemma WholeHostRun(a: Authority, uf: Field)
    requires WfAuthority(a)
    ensures HostDrive(HostBegin(a.userinfo.Some?), WriteAuthority(a))
         == if a.port.Some? then Port else if a.host.Name? then HttpUrl.Host else V6End
    ensures HostPiece(HostBegin(a.userinfo.Some?), WriteAuthority(a), uf) == AuthorityPart(a, uf)
  {
    hide Drive, Collect, HostDrive, HostPiece, Only, WriteHost, UserText, PortText, HostBegin;
    var h := if a.host.Name? then HttpUrl.Host else V6End;
    UserRun(a.userinfo, uf);
    HostRun(a.host, uf);
    PortRun(h, a.port, uf);
    HostAppended(HostStart, WriteHost(a.host), PortText(a.port), uf);
    HostAppended(HostBegin(a.userinfo.Some?), UserText(a.userinfo), WriteHost(a.host) + PortText(a.port), uf);
  }

  // ---------------------------------------------------------------- what is written is read back

  lemma {:induction false} AsUrlAfter(connect: bool, bytes: seq<byte>, uf: Field)
    ensures UrlAfter(connect, bytes) == UrlDrive(UrlStart(connect), bytes)
    ensures PartOf(connect, bytes, uf) == UrlPart(UrlStart(connect), bytes, uf)
    ensures uf in Marked(connect, bytes) <==> PartOf(connect, bytes, uf) != []
    decreases |bytes|
  {
    if bytes != [] {
      hide ParseUrlChar, FieldOf;
      AsUrlAfter(connect, bytes[..|bytes| - 1], uf);
    }
  }

  lemma {:induction false} AsHostAfter(at: bool, bytes: seq<byte>, uf: Field)
    ensures HostAfter(at, bytes) == HostDrive(HostBegin(at), bytes)
    ensures HostPart(at, bytes, uf) == HostPiece(HostBegin(at), bytes, uf)
    ensures HasUserinfo(at, bytes) <==> HostPart(at, bytes, FUserinfo) != []
    decreases |bytes|
  {
    if bytes != [] {
      hide ParseHostChar, HostFieldOf;
      AsHostAfter(at, bytes[..|bytes| - 1], uf);
      UserinfoField(HostAfter(at, bytes));
    }
  }

  lemma UserinfoField(s: HostState)
    ensures HostFieldOf(s) == Some(FUserinfo) <==> s.Userinfo?
  {
  }

  // The scan notices an '@' of the authority.
  lemma {:induction false} AtIsThere(connect: bool, bytes: seq<byte>)
    ensures HasAt(connect, bytes) <==> AT in AuthorityOf(connect, bytes)
    decreases |bytes|
  {
    if bytes != [] {
      hide ParseUrlChar, FieldOf;
      var front := bytes[..|bytes| - 1];
      AtIsThere(connect, front);
      AtByte(UrlAfter(connect, front), bytes[|bytes| - 1]);
    }
  }

  lemma AtByte(s: UrlState, b: byte)
    ensures ParseUrlChar(s, b).ServerWithAt? <==> b == AT && FieldOf(ParseUrlChar(s, b)) == Some(FHost)
  {
    hide IsUserinfoChar, IsUrlChar, IsAlpha;
    assert !IsUserinfoChar(AT) by { NotUserinfo(); }
  }

  lemma NotUserinfo()
    ensures !IsUserinfoChar(AT)
  {
  }

  lemma NoAt(bytes: seq<byte>)
    requires Only(bytes, ServerByte)
    ensures AT !in bytes
  {
  }

  lemma AtWritten(a: Authority)
    requires WfAuthority(a)
    ensures AT in WriteAuthority(a) <==> a.userinfo.Some?
  {
    var back := WriteHost(a.host) + PortText(a.port);
    ServerBytes(a);
    NoAt(back);
    if a.userinfo.Some? {
      var t := UserText(a.userinfo);
      assert t[|t| - 1] == AT && AT in t;
    }
  }

  lemma {:induction false} SameValue(digits: seq<byte>)
    requires forall i :: 0 <= i < |digits| ==> IsNum(digits[i])
    ensures NumOf(digits) == ValueOf(digits)
    decreases |digits|
  {
    if digits != [] { SameValue(digits[..|digits| - 1]); }
  }

  lemma ScanText(u: Url, uf: Field)
    requires WfUrl(u)
    ensures var c := u.ConnectTo?;
      && !UrlAfter(c, Write(u)).UrlDead?
      && PartOf(c, Write(u), uf) == ScanPart(u, uf)
      && (uf in Marked(c, Write(u)) <==> ScanPart(u, uf) != [])
  {
    hide UrlAfter, PartOf, Marked, UrlDrive, UrlPart, Write;
    UrlRun(u, uf);
    AsUrlAfter(u.ConnectTo?, Write(u), uf);
  }

  // The authority is found, and whether it has an '@'.
  lemma AuthorityFound(u: Url)
    requires WfUrl(u)
    ensures var c := u.ConnectTo?;
      && AuthorityOf(c, Write(u)) == (if u.Origin? then [] else WriteAuthority(u.authority))
      && HasAt(c, Write(u)) == (!u.Origin? && u.authority.userinfo.Some?)
  {
    hide PartOf, Write, WriteAuthority, Marked;
    ScanText(u, FHost);
    AtIsThere(u.ConnectTo?, Write(u));
    if !u.Origin? { AtWritten(u.authority); }
  }

  lemma AuthorityRead(a: Authority, uf: Field)
    requires WfAuthority(a)
    ensures var at, auth := a.userinfo.Some?, WriteAuthority(a);
      && HostAfter(at, auth) == (if a.port.Some? then Port else if a.host.Name? then HttpUrl.Host else V6End)
      && HostPart(at, auth, uf) == AuthorityPart(a, uf)
      && (HasUserinfo(at, auth) <==> Text(a.userinfo) != [])
  {
    hide HostAfter, HostPart, HasUserinfo, HostDrive, HostPiece, WriteAuthority;
    WholeHostRun(a, uf);
    AsHostAfter(a.userinfo.Some?, WriteAuthority(a), uf);
    WholeHostRun(a, FUserinfo);
    AsHostAfter(a.userinfo.Some?, WriteAuthority(a), FUserinfo);
  }

  lemma TextIsPart(u: Url, uf: Field)
    requires WfUrl(u)
    ensures TextOf(u.ConnectTo?, Write(u), uf) == Part(u, uf)
  {
    hide PartOf, Write, WriteAuthority, Marked, AuthorityOf, HasAt, WfTail, WfHost;
    ScanText(u, uf);
    AuthorityFound(u);
    if !u.Origin? { AuthorityRead(u.authority, uf); }
  }

  // What is written from parts is read back into exactly these parts, and it is accepted if and only if
  // it takes one of the allowed forms.
  lemma WrittenIsRead(u: Url)
    requires WfUrl(u)
    ensures forall uf: Field :: TextOf(u.ConnectTo?, Write(u), uf) == Part(u, uf)
    ensures Accepts(u.ConnectTo?, Write(u)) <==> Allowed(u.ConnectTo?, u)
  {
    hide Accepts, Allowed, TextOf, Write, WfUrl;
    forall uf: Field ensures TextOf(u.ConnectTo?, Write(u), uf) == Part(u, uf) { TextIsPart(u, uf); }
    if u.Origin? { OriginAccepted(u); } else { AuthorityAccepted(u); }
  }

  lemma OriginAccepted(u: Url)
    requires WfUrl(u) && u.Origin?
    ensures Accepts(false, Write(u)) && Allowed(false, u)
  {
    hide UrlAfter, PartOf, Write, WriteAuthority, Marked, AuthorityOf, HasAt, WfTail;
    ScanText(u, FHost);
    ScanText(u, FSchema);
  }

  lemma AuthorityAccepted(u: Url)
    requires WfUrl(u) && !u.Origin?
    ensures Accepts(u.ConnectTo?, Write(u)) <==> Allowed(u.ConnectTo?, u)
  {
    hide UrlAfter, PartOf, Write, WriteAuthority, Marked, AuthorityOf, HasAt, HostAfter, HasUserinfo, HostPart, WfTail, WfHost, Only;
    ScanText(u, FHost);
    AuthorityThere(u.authority);
    AuthorityFound(u);
    AuthorityRead(u.authority, FPort);
    SameValue(PortOf(u.authority.userinfo.Some?, WriteAuthority(u.authority)));
    MarkedOnly(u);
    HostIsAccepted(u);
  }

  lemma HostIsAccepted(u: Url)
    requires WfUrl(u) && !u.Origin?
    ensures AcceptsHost(u.ConnectTo?, u.authority.userinfo.Some?, WriteAuthority(u.authority)) <==>
      && (u.ConnectTo? ==> u.authority.port.Some? && Text(u.authority.userinfo) == [])
      && (u.authority.port.Some? ==> ValueOf(u.authority.port.value) <= 65535)
  {
    hide WriteAuthority, HostAfter, HasUserinfo, HostPart, WfTail, WfHost, Only, NumOf;
    AuthorityRead(u.authority, FPort);
    SameValue(PortOf(u.authority.userinfo.Some?, WriteAuthority(u.authority)));
    assert ValueOf([]) == 0;
  }

  lemma AuthorityThere(a: Authority)
    requires WfAuthority(a)
    ensures WriteAuthority(a) != [] && (a.port.Some? ==> a.port.value != [])
  {
    ServerBytes(a);
  }

  lemma MarkedOnly(u: Url)
    requires WfUrl(u)
    ensures u.ConnectTo? ==>
      (Marked(true, Write(u)) == {FHost} <==> u.tail.path == [] && Text(u.tail.query) == [] && u.tail.fragment == [])
  {
    hide UrlAfter, PartOf, Write, WriteAuthority, Marked, WfTail, WfHost, Only;
    if u.ConnectTo? {
      forall uf: Field ensures uf in Marked(true, Write(u)) <==> ScanPart(u, uf) != [] { ScanText(u, uf); }
      AuthorityThere(u.authority);
      assert ScanPart(u, FPath) == u.tail.path && ScanPart(u, FQuery) == Text(u.tail.query);
      assert ScanPart(u, FFragment) == u.tail.fragment && ScanPart(u, FHost) == WriteAuthority(u.authority);
      assert FPath !in {FHost} && FQuery !in {FHost} && FFragment !in {FHost};
    }
  }

  // ---------------------------------------------------------------- nothing else is accepted: the URL

  lemma UrlCons(s: UrlState, bytes: seq<byte>)
    requires bytes != []
    ensures UrlDrive(s, bytes) == UrlDrive(ParseUrlChar(s, bytes[0]), bytes[1..])
    ensures UrlPart(s, bytes, FHost) ==
      (if FieldOf(ParseUrlChar(s, bytes[0])) == Some(FHost) then [bytes[0]] else [])
      + UrlPart(ParseUrlChar(s, bytes[0]), bytes[1..], FHost)
  {
    hide UrlDrive, UrlPart;
    assert bytes == [bytes[0]] + bytes[1..];
    UrlAppended(s, [bytes[0]], bytes[1..], FHost);
    OneUrl(s, bytes[0], FHost);
  }

  lemma {:induction false} DeadUrl(bytes: seq<byte>)
    ensures UrlDrive(UrlDead, bytes).UrlDead?
    decreases |bytes|
  {
    if bytes != [] { DeadUrl(bytes[..|bytes| - 1]); }
  }

  lemma {:induction false} ReadFragment(bytes: seq<byte>)
    requires !UrlDrive(Fragment, bytes).UrlDead?
    ensures Only(bytes, FragmentByte) && UrlPart(Fragment, bytes, FHost) == []
    decreases |bytes|
  {
    if bytes != [] {
      hide UrlDrive, UrlPart;
      UrlCons(Fragment, bytes);
      DeadUrl(bytes[1..]);
      ReadFragment(bytes[1..]);
    } else {
      NothingRun(Fragment, FHost);
    }
  }

  predicate WfHashes(hashes: nat, fragment: seq<byte>) {
    Only(fragment, FragmentByte) && (fragment != [] ==> hashes > 0 && fragment[0] != HASH)
  }

  // From the first '#' on.
  lemma {:induction false} ReadHashes(bytes: seq<byte>) returns (hashes: nat, fragment: seq<byte>)
    requires !UrlDrive(FragmentStart, bytes).UrlDead?
    ensures WfHashes(hashes + 1, fragment) && [HASH] + bytes == HashText(hashes + 1, fragment)
    ensures UrlPart(FragmentStart, bytes, FHost) == []
    decreases |bytes|
  {
    hide UrlDrive, UrlPart, Only;
    if bytes == [] {
      NothingRun(FragmentStart, FHost);
      hashes, fragment := 0, [];
      NoBytes(FragmentByte);
    } else {
      UrlCons(FragmentStart, bytes);
      DeadUrl(bytes[1..]);
      if bytes[0] == HASH {
        hashes, fragment := ReadHashes(bytes[1..]);
        assert bytes == [HASH] + bytes[1..];
        OneMoreHash(hashes + 1, fragment);
        hashes := hashes + 1;
      } else {
        ReadFragment(bytes[1..]);
        hashes, fragment := 0, bytes;
        assert Only(bytes, FragmentByte) by { OnlyCons(bytes, FragmentByte); }
        assert seq(1, _ => HASH) == [HASH];
      }
    }
  }

  lemma NoBytes(P: byte -> bool)
    ensures Only([], P)
  {
  }

  lemma OnlyCons(bytes: seq<byte>, P: byte -> bool)
    requires bytes != []
    ensures Only(bytes, P) <==> P(bytes[0]) && Only(bytes[1..], P)
  {
    assert forall i :: 1 <= i < |bytes| ==> bytes[i] == bytes[1..][i - 1];
  }

  lemma OneMoreHash(hashes: nat, fragment: seq<byte>)
    ensures [HASH] + HashText(hashes, fragment) == HashText(hashes + 1, fragment)
  {
    assert [HASH] + seq(hashes, _ => HASH) == seq(hashes + 1, _ => HASH);
    assert [HASH] + HashText(hashes, fragment) == ([HASH] + seq(hashes, _ => HASH)) + fragment;
  }

  // Behind a '?'.
  lemma {:induction false} ReadQuery(s: UrlState, bytes: seq<byte>) returns (query: seq<byte>, hashes: nat, fragment: seq<byte>)
    requires (s.QueryStart? || s.Query?) && !UrlDrive(s, bytes).UrlDead?
    ensures Only(query, QueryByte) && WfHashes(hashes, fragment) && bytes == query + HashText(hashes, fragment)
    ensures UrlPart(s, bytes, FHost) == []
    decreases |bytes|
  {
    hide UrlDrive, UrlPart, Only;
    query, hashes, fragment := [], 0, [];
    NoBytes(QueryByte);
    NoBytes(FragmentByte);
    if bytes == [] {
      NothingRun(s, FHost);
    } else {
      UrlCons(s, bytes);
      DeadUrl(bytes[1..]);
      if bytes[0] == HASH {
        hashes, fragment := ReadHashes(bytes[1..]);
        assert bytes == [HASH] + bytes[1..];
        hashes := hashes + 1;
        assert [] + HashText(hashes, fragment) == HashText(hashes, fragment);
      } else {
        query, hashes, fragment := ReadQuery(Query, bytes[1..]);
        ConsMore(bytes, query, HashText(hashes, fragment));
        query := [bytes[0]] + query;
        OnlyCons(query, QueryByte);
        assert query[1..] == query[1..];
      }
    }
  }

  lemma ConsMore(bytes: seq<byte>, a: seq<byte>, b: seq<byte>)
    requires bytes != [] && bytes[1..] == a + b
    ensures bytes == ([bytes[0]] + a) + b && ([bytes[0]] + a)[1..] == a
  {
  }

  // Behind the first byte of a path.
  lemma {:induction false} ReadPath(bytes: seq<byte>) returns (path: seq<byte>, query: Option<seq<byte>>, hashes: nat, fragment: seq<byte>)
    requires !UrlDrive(Path, bytes).UrlDead?
    ensures Only(path, PathByte) && (query.Some? ==> Only(query.value, QueryByte)) && WfHashes(hashes, fragment)
    ensures bytes == path + (QueryText(query) + HashText(hashes, fragment))
    ensures UrlPart(Path, bytes, FHost) == []
    decreases |bytes|
  {
    hide UrlDrive, UrlPart, Only;
    path, query, hashes, fragment := [], None, 0, [];
    NoBytes(PathByte);
    NoBytes(FragmentByte);
    if bytes == [] {
      NothingRun(Path, FHost);
    } else {
      UrlCons(Path, bytes);
      DeadUrl(bytes[1..]);
      assert bytes == [bytes[0]] + bytes[1..];
      if bytes[0] == HASH {
        hashes, fragment := ReadHashes(bytes[1..]);
        hashes := hashes + 1;
        assert [] + ([] + HashText(hashes, fragment)) == HashText(hashes, fragment);
      } else if bytes[0] == QUESTION {
        var text;
        text, hashes, fragment := ReadQuery(QueryStart, bytes[1..]);
        query := Some(text);
        assert [] + (([QUESTION] + text) + HashText(hashes, fragment)) == [QUESTION] + (text + HashText(hashes, fragment));
      } else {
        path, query, hashes, fragment := ReadPath(bytes[1..]);
        ConsMore(bytes, path, QueryText(query) + HashText(hashes, fragment));
        path := [bytes[0]] + path;
        OnlyCons(path, PathByte);
      }
    }
  }

  // From the start of an authority: the authority is what the scan takes for the host, and a tail follows.
  lemma {:induction false} ReadServer(s: UrlState, bytes: seq<byte>) returns (auth: seq<byte>, t: Tail)
    requires (s.ServerStart? || s.Server? || s.ServerWithAt?) && !UrlDrive(s, bytes).UrlDead?
    ensures WfBehind(t) && bytes == auth + WriteTail(t) && UrlPart(s, bytes, FHost) == auth
    decreases |bytes|
  {
    hide UrlDrive, UrlPart, Only;
    auth, t := [], Tail([], None, 0, []);
    NoBytes(FragmentByte);
    NoBytes(PathByte);
    if bytes == [] {
      NothingRun(s, FHost);
      assert WriteTail(t) == [];
    } else {
      UrlCons(s, bytes);
      DeadUrl(bytes[1..]);
      assert bytes == [bytes[0]] + bytes[1..];
      if bytes[0] == SLASH {
        var path, query, hashes, fragment := ReadPath(bytes[1..]);
        t := Tail([SLASH] + path, query, hashes, fragment);
        assert t.path[1..] == path;
        Regroup([SLASH], path, QueryText(query) + HashText(hashes, fragment));
        assert [] + WriteTail(t) == WriteTail(t);
      } else if bytes[0] == QUESTION {
        var text, hashes, fragment := ReadQuery(QueryStart, bytes[1..]);
        t := Tail([], Some(text), hashes, fragment);
        Regroup([QUESTION], text, HashText(hashes, fragment));
        assert [] + WriteTail(t) == QueryText(t.query) + HashText(hashes, fragment);
      } else {
        StaysInServer(s, bytes[0]);
        auth, t := ReadServer(ParseUrlChar(s, bytes[0]), bytes[1..]);
        ConsMore(bytes, auth, WriteTail(t));
        auth := [bytes[0]] + auth;
      }
    }
  }

  lemma Regroup(a: seq<byte>, b: seq<byte>, c: seq<byte>)
    ensures a + (b + c) == (a + b) + c
  {
  }

  lemma StaysInServer(s: UrlState, b: byte)
    requires s.ServerStart? || s.Server? || s.ServerWithAt?
    requires b != SLASH && b != QUESTION && !ParseUrlChar(s, b).UrlDead?
    ensures ParseUrlChar(s, b).Server? || ParseUrlChar(s, b).ServerWithAt?
  {
  }

  // From inside a schema, if an authority follows.
  lemma {:induction false} ReadSchema(bytes: seq<byte>) returns (schema: seq<byte>, auth: seq<byte>, t: Tail)
    requires !UrlDrive(Schema, bytes).UrlDead? && UrlPart(Schema, bytes, FHost) != []
    ensures Only(schema, Letter) && WfBehind(t) && UrlPart(Schema, bytes, FHost) == auth
    ensures bytes == schema + ([COLON, SLASH, SLASH] + (auth + WriteTail(t)))
    decreases |bytes|
  {
    hide UrlDrive, UrlPart, Only;
    NothingRun(Schema, FHost);
    UrlCons(Schema, bytes);
    DeadUrl(bytes[1..]);
    if bytes[0] == COLON {
      schema := [];
      NoBytes(Letter);
      auth, t := ReadSlashes(bytes[1..]);
      assert bytes == [COLON] + bytes[1..];
      assert [] + ([COLON, SLASH, SLASH] + (auth + WriteTail(t))) == [COLON] + ([SLASH, SLASH] + (auth + WriteTail(t)));
    } else {
      schema, auth, t := ReadSchema(bytes[1..]);
      ConsMore(bytes, schema, [COLON, SLASH, SLASH] + (auth + WriteTail(t)));
      schema := [bytes[0]] + schema;
      OnlyCons(schema, Letter);
    }
  }

  lemma ReadSlashes(bytes: seq<byte>) returns (auth: seq<byte>, t: Tail)
    requires !UrlDrive(SchemaSlash, bytes).UrlDead? && UrlPart(SchemaSlash, bytes, FHost) != []
    ensures WfBehind(t) && UrlPart(SchemaSlash, bytes, FHost) == auth
    ensures bytes == [SLASH, SLASH] + (auth + WriteTail(t))
  {
    hide UrlDrive, UrlPart, Only;
    NothingRun(SchemaSlash, FHost);
    NothingRun(SchemaSlashSlash, FHost);
    UrlCons(SchemaSlash, bytes);
    DeadUrl(bytes[1..]);
    UrlCons(SchemaSlashSlash, bytes[1..]);
    DeadUrl(bytes[1..][1..]);
    auth, t := ReadServer(ServerStart, bytes[1..][1..]);
    assert bytes == [bytes[0]] + ([bytes[1..][0]] + bytes[1..][1..]);
  }

  // ---------------------------------------------------------------- nothing else is accepted: the authority

  lemma HostCons(s: HostState, bytes: seq<byte>)
    requires bytes != []
    ensures HostDrive(s, bytes) == HostDrive(ParseHostChar(s, bytes[0]), bytes[1..])
  {
    hide HostDrive, HostPiece;
    assert bytes == [bytes[0]] + bytes[1..];
    HostAppended(s, [bytes[0]], bytes[1..], FHost);
    OneHost(s, bytes[0], FHost);
  }

  lemma {:induction false} DeadHost(bytes: seq<byte>)
    ensures HostDrive(HostDead, bytes).HostDead?
    decreases |bytes|
  {
    if bytes != [] { DeadHost(bytes[..|bytes| - 1]); }
  }

  lemma {:induction false} ReadDigits(s: HostState, bytes: seq<byte>)
    requires (s.PortStart? || s.Port?) && HostEndsWell(HostDrive(s, bytes))
    ensures Only(bytes, Digit) && (s.PortStart? ==> bytes != [])
    decreases |bytes|
  {
    hide HostDrive;
    if bytes == [] {
      NoHostRun(s, FHost);
    } else {
      HostCons(s, bytes);
      DeadHost(bytes[1..]);
      ReadDigits(Port, bytes[1..]);
      OnlyCons(bytes, Digit);
    }
  }

  predicate WfPort(port: Option<seq<byte>>) { port.Some? ==> port.value != [] && Only(port.value, Digit) }

  // Behind a bracketed host.
  lemma ReadBehind(bytes: seq<byte>) returns (port: Option<seq<byte>>)
    requires HostEndsWell(HostDrive(V6End, bytes))
    ensures WfPort(port) && bytes == PortText(port)
  {
    hide HostDrive;
    port := None;
    if bytes != [] {
      HostCons(V6End, bytes);
      DeadHost(bytes[1..]);
      ReadDigits(PortStart, bytes[1..]);
      port := Some(bytes[1..]);
      assert bytes == [bytes[0]] + bytes[1..];
    }
  }

  lemma {:induction false} ReadName(bytes: seq<byte>) returns (text: seq<byte>, port: Option<seq<byte>>)
    requires HostEndsWell(HostDrive(HttpUrl.Host, bytes))
    ensures Only(text, HostByte) && WfPort(port) && bytes == text + PortText(port)
    decreases |bytes|
  {
    hide HostDrive, Only;
    text, port := [], None;
    NoBytes(HostByte);
    if bytes != [] {
      HostCons(HttpUrl.Host, bytes);
      DeadHost(bytes[1..]);
      assert bytes == [bytes[0]] + bytes[1..];
      if bytes[0] == COLON {
        ReadDigits(PortStart, bytes[1..]);
        port := Some(bytes[1..]);
      } else {
        text, port := ReadName(bytes[1..]);
        ConsMore(bytes, text, PortText(port));
        text := [bytes[0]] + text;
        OnlyCons(text, HostByte);
      }
    }
  }

  lemma {:induction false} ReadZone(s: HostState, bytes: seq<byte>) returns (zone: seq<byte>, port: Option<seq<byte>>)
    requires (s.V6ZoneStart? || s.V6Zone?) && HostEndsWell(HostDrive(s, bytes))
    ensures Only(zone, ZoneByte) && WfPort(port) && bytes == zone + ([CLOSE] + PortText(port))
    ensures s.V6ZoneStart? ==> zone != []
    decreases |bytes|
  {
    hide HostDrive, Only;
    NoHostRun(s, FHost);
    HostCons(s, bytes);
    DeadHost(bytes[1..]);
    if bytes[0] == CLOSE {
      zone := [];
      NoBytes(ZoneByte);
      port := ReadBehind(bytes[1..]);
      assert bytes == [bytes[0]] + bytes[1..];
    } else {
      zone, port := ReadZone(V6Zone, bytes[1..]);
      ConsMore(bytes, zone, [CLOSE] + PortText(port));
      zone := [bytes[0]] + zone;
      OnlyCons(zone, ZoneByte);
    }
  }

  lemma {:induction false} ReadAddress(s: HostState, bytes: seq<byte>)
    returns (address: seq<byte>, zone: Option<seq<byte>>, port: Option<seq<byte>>)
    requires (s.V6Start? || s.V6?) && HostEndsWell(HostDrive(s, bytes))
    ensures Only(address, AddressByte) && WfPort(port) && (s.V6Start? ==> address != [])
    ensures zone.Some? ==> zone.value != [] && Only(zone.value, ZoneByte)
    ensures bytes == address + (ZoneText(zone) + ([CLOSE] + PortText(port)))
    decreases |bytes|
  {
    hide HostDrive, Only, PortText;
    NoHostRun(s, FHost);
    HostCons(s, bytes);
    DeadHost(bytes[1..]);
    address, zone := [], None;
    NoBytes(AddressByte);
    if s.V6? && bytes[0] == CLOSE {
      port := ReadBehind(bytes[1..]);
      assert bytes == [bytes[0]] + bytes[1..];
      assert [] + ([] + ([CLOSE] + PortText(port))) == [CLOSE] + PortText(port);
    } else if s.V6? && bytes[0] == PERCENT {
      var text;
      text, port := ReadZone(V6ZoneStart, bytes[1..]);
      zone := Some(text);
      Zoned(bytes, text, [CLOSE] + PortText(port));
    } else {
      address, zone, port := ReadAddress(V6, bytes[1..]);
      ConsMore(bytes, address, ZoneText(zone) + ([CLOSE] + PortText(port)));
      address := [bytes[0]] + address;
      OnlyCons(address, AddressByte);
    }
  }

  lemma Zoned(bytes: seq<byte>, text: seq<byte>, rest: seq<byte>)
    requires bytes != [] && bytes[0] == PERCENT && bytes[1..] == text + rest
    ensures bytes == [] + (ZoneText(Some(text)) + rest)
  {
  }

  lemma ReadHost(bytes: seq<byte>) returns (h: Host, port: Option<seq<byte>>)
    requires HostEndsWell(HostDrive(HostStart, bytes))
    ensures WfHost(h) && WfPort(port) && bytes == WriteHost(h) + PortText(port)
  {
    hide HostDrive, Only;
    NoHostRun(HostStart, FHost);
    HostCons(HostStart, bytes);
    DeadHost(bytes[1..]);
    assert bytes == [bytes[0]] + bytes[1..];
    if bytes[0] == OPEN {
      var address, zone, p := ReadAddress(V6Start, bytes[1..]);
      h, port := Literal(address, zone), p;
      Bracketed(address, ZoneText(zone), PortText(port));
    } else {
      var text, p := ReadName(bytes[1..]);
      h, port := Name([bytes[0]] + text), p;
      ConsMore(bytes, text, PortText(port));
      OnlyCons(h.text, HostByte);
    }
  }

  lemma Bracketed(a: seq<byte>, z: seq<byte>, p: seq<byte>)
    ensures [OPEN] + (a + (z + ([CLOSE] + p))) == ([OPEN] + (a + (z + [CLOSE]))) + p
  {
  }

  lemma {:induction false} ReadUser(s: HostState, bytes: seq<byte>) returns (user: seq<byte>, h: Host, port: Option<seq<byte>>)
    requires (s.UserinfoStart? || s.Userinfo?) && HostEndsWell(HostDrive(s, bytes))
    ensures Only(user, UserinfoByte) && WfHost(h) && WfPort(port)
    ensures bytes == user + ([AT] + (WriteHost(h) + PortText(port)))
    decreases |bytes|
  {
    hide HostDrive, Only;
    NoHostRun(s, FHost);
    HostCons(s, bytes);
    DeadHost(bytes[1..]);
    if bytes[0] == AT {
      user := [];
      NoBytes(UserinfoByte);
      h, port := ReadHost(bytes[1..]);
      assert bytes == [bytes[0]] + bytes[1..];
      assert [] + ([AT] + (WriteHost(h) + PortText(port))) == [AT] + (WriteHost(h) + PortText(port));
    } else {
      user, h, port := ReadUser(Userinfo, bytes[1..]);
      ConsMore(bytes, user, [AT] + (WriteHost(h) + PortText(port)));
      user := [bytes[0]] + user;
      OnlyCons(user, UserinfoByte);
    }
  }

  lemma ReadAuthority(at: bool, auth: seq<byte>) returns (a: Authority)
    requires HostEndsWell(HostAfter(at, auth))
    ensures WfAuthority(a) && WriteAuthority(a) == auth
  {
    AsHostAfter(at, auth, FHost);
    hide HostAfter, HostDrive, Only;
    if at {
      var user, h, port := ReadUser(UserinfoStart, auth);
      a := Authority(Some(user), h, port);
      Regroup(user, [AT], WriteHost(h) + PortText(port));
    } else {
      var h, port := ReadHost(auth);
      a := Authority(None, h, port);
      assert [] + (WriteHost(h) + PortText(port)) == WriteHost(h) + PortText(port);
    }
  }

  // ---------------------------------------------------------------- exactly

  lemma ReadUrl(connect: bool, buf: seq<byte>) returns (u: Url)
    requires Accepts(connect, buf)
    ensures WfUrl(u) && (connect <==> u.ConnectTo?) && Write(u) == buf
  {
    AsUrlAfter(connect, buf, FHost);
    AsUrlAfter(connect, buf, FSchema);
    var auth := AuthorityOf(connect, buf);
    hide UrlAfter, PartOf, Marked, UrlDrive, UrlPart, HasAt, HostAfter, Only, WfAuthority, WriteAuthority;
    if connect {
      var a, t := ReadServer(ServerStart, buf);
      var authority := ReadAuthority(HasAt(connect, buf), auth);
      u := ConnectTo(authority, t);
    } else if buf == [] {
      u := Origin(Tail([], None, 0, []));
      NoBytes(FragmentByte);
      assert Write(u) == [];
    } else {
      u := ReadStart(buf);
    }
  }

  lemma ReadStart(buf: seq<byte>) returns (u: Url)
    requires Accepts(false, buf) && buf != []
    ensures WfUrl(u) && !u.ConnectTo? && Write(u) == buf
  {
    AsUrlAfter(false, buf, FHost);
    hide UrlAfter, PartOf, Marked, UrlDrive, UrlPart, HasAt, HostAfter, Only;
    UrlCons(SpacesBeforeUrl, buf);
    DeadUrl(buf[1..]);
    if buf[0] == SLASH || buf[0] == STAR {
      var path, query, hashes, fragment := ReadPath(buf[1..]);
      u := Origin(Tail([buf[0]] + path, query, hashes, fragment));
      ConsMore(buf, path, QueryText(query) + HashText(hashes, fragment));
    } else {
      u := ReadAbsolute(buf);
    }
  }

  lemma ReadAbsolute(buf: seq<byte>) returns (u: Url)
    requires Accepts(false, buf) && buf != [] && ParseUrlChar(SpacesBeforeUrl, buf[0]).Schema?
    ensures WfUrl(u) && u.Absolute? && Write(u) == buf
  {
    SchemaMarked(buf);
    AsUrlAfter(false, buf, FHost);
    var auth := AuthorityOf(false, buf);
    assert HostEndsWell(HostAfter(HasAt(false, buf), auth));
    hide UrlAfter, PartOf, Marked, UrlDrive, UrlPart, HasAt, HostAfter, Only, Accepts, WfAuthority, WriteAuthority, WriteTail;
    UrlCons(SpacesBeforeUrl, buf);
    var schema, found, t := ReadSchema(buf[1..]);
    assert [] + found == found;
    var authority := ReadAuthority(HasAt(false, buf), auth);
    u := Absolute([buf[0]] + schema, authority, t);
    OnlyCons(u.schema, Letter);
    ConsMore(buf, schema, [COLON, SLASH, SLASH] + (found + WriteTail(t)));
  }

  // A URL that begins with a letter has a schema.
  lemma SchemaMarked(buf: seq<byte>)
    requires buf != [] && ParseUrlChar(SpacesBeforeUrl, buf[0]).Schema?
    ensures FSchema in Marked(false, buf) && Letter(buf[0])
  {
    hide UrlDrive, UrlPart;
    AsUrlAfter(false, buf, FSchema);
    assert buf == [buf[0]] + buf[1..];
    UrlAppended(SpacesBeforeUrl, [buf[0]], buf[1..], FSchema);
    OneUrl(SpacesBeforeUrl, buf[0], FSchema);
  }

  // The accepted URLs are exactly those of the grammar, and each is read back into its parts.
  lemma AcceptedExactly(connect: bool, buf: seq<byte>)
    ensures Accepts(connect, buf) <==> exists u :: Allowed(connect, u) && Write(u) == buf
  {
    hide Accepts, Write, WfUrl;
    if Accepts(connect, buf) {
      var u := ReadUrl(connect, buf);
      WrittenIsRead(u);
      assert Allowed(connect, u) && Write(u) == buf;
    } else if u :| Allowed(connect, u) && Write(u) == buf {
      WrittenIsRead(u);
    }
  }

  // CONNECT is refused with the text of a user, a path, a query or a fragment, but not for their marks.
  lemma MarksInConnect()
    ensures Accepts(true, [AT, 'h' as int, COLON, '1' as int, QUESTION, HASH])
    ensures TextOf(true, [AT, 'h' as int, COLON, '1' as int, QUESTION, HASH], FHost) == ['h' as int]
  {
    var h, one: seq<byte> := ['h' as int], ['1' as int];
    var u := ConnectTo(Authority(Some([]), Name(h), Some(one)), Tail([], Some([]), 1, []));
    assert seq(1, _ => HASH) == [HASH];
    assert Write(u) == [AT, 'h' as int, COLON, '1' as int, QUESTION, HASH];
    assert one[..0] == [] && ValueOf(one) == 1;
    hide TextOf, Accepts, Write;
    WrittenIsRead(u);
  }
}
