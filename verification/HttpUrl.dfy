/** URL splitting in water/net/http-parser/http_parser.c, strict mode: the URL and host machines
    and `http_parser_parse_url`, which records each field as an offset and a length. */
module HttpUrl {
  import opened Common
  import opened HttpBody

  datatype UrlState =
    | UrlDead | SpacesBeforeUrl | Schema | SchemaSlash | SchemaSlashSlash
    | ServerStart | Server | ServerWithAt | Path | QueryStart | Query | FragmentStart | Fragment

  datatype HostState =
    | HostDead | UserinfoStart | Userinfo | HostStart | V6Start | Host | V6 | V6End
    | V6ZoneStart | V6Zone | PortStart | Port

  datatype Field = FSchema | FHost | FPort | FPath | FQuery | FFragment | FUserinfo

  // Offset and length are 16-bit in the code.
  datatype Span = Span(off: nat, len: nat) {
    function End(): nat { off + len }
  }

  type Fields = map<Field, Span>

  const U16: nat := 0x1_0000

  predicate IsNum(c: byte) { '0' as int <= c <= '9' as int }

  predicate IsAlpha(c: byte) { 'A' as int <= c <= 'Z' as int || 'a' as int <= c <= 'z' as int }

  predicate IsHex(c: byte) { IsNum(c) || 'A' as int <= c <= 'F' as int || 'a' as int <= c <= 'f' as int }

  predicate IsMark(c: byte) {
    c == '-' as int || c == '_' as int || c == '.' as int || c == '!' as int || c == '~' as int || c == '*' as int
    || c == '\'' as int || c == '(' as int || c == ')' as int
  }

  predicate IsUserinfoChar(c: byte) {
    IsAlpha(c) || IsNum(c) || IsMark(c) || c == '%' as int || c == ';' as int || c == ':' as int || c == '&' as int
    || c == '=' as int || c == '+' as int || c == '$' as int || c == ',' as int
  }

  predicate IsHostChar(c: byte) { IsAlpha(c) || IsNum(c) || c == '.' as int || c == '-' as int }

  // The `normal_url_char` table of strict mode: every visible character but '#' and '?'.
  predicate IsUrlChar(c: byte) { 33 <= c <= 126 && c != '#' as int && c != '?' as int }

  // parse_url_char
  function ParseUrlChar(s: UrlState, ch: byte): UrlState {
    if ch == ' ' as int || ch == CR || ch == LF || ch == 9 || ch == 12 then UrlDead
    else
      match s
      case SpacesBeforeUrl =>
        if ch == '/' as int || ch == '*' as int then Path
        else if IsAlpha(ch) then Schema
        else UrlDead
      case Schema => if IsAlpha(ch) then Schema else if ch == ':' as int then SchemaSlash else UrlDead
      case SchemaSlash => if ch == '/' as int then SchemaSlashSlash else UrlDead
      case SchemaSlashSlash => if ch == '/' as int then ServerStart else UrlDead
      case ServerWithAt => if ch == '@' as int then UrlDead else ParseServerChar(ch)
      case ServerStart => ParseServerChar(ch)
      case Server => ParseServerChar(ch)
      case Path =>
        if IsUrlChar(ch) then Path
        else if ch == '?' as int then QueryStart
        else if ch == '#' as int then FragmentStart
        else UrlDead
      case QueryStart => ParseQueryChar(ch)
      case Query => ParseQueryChar(ch)
      case FragmentStart =>
        if IsUrlChar(ch) || ch == '?' as int then Fragment
        else if ch == '#' as int then FragmentStart
        else UrlDead
      case Fragment => if IsUrlChar(ch) || ch == '?' as int || ch == '#' as int then Fragment else UrlDead
      case UrlDead => UrlDead
  }

  function ParseServerChar(ch: byte): UrlState {
    if ch == '/' as int then Path
    else if ch == '?' as int then QueryStart
    else if ch == '@' as int then ServerWithAt
    else if IsUserinfoChar(ch) || ch == '[' as int || ch == ']' as int then Server
    else UrlDead
  }

  function ParseQueryChar(ch: byte): UrlState {
    if IsUrlChar(ch) || ch == '?' as int then Query
    else if ch == '#' as int then FragmentStart
    else UrlDead
  }

  // http_parse_host_char
  function ParseHostChar(s: HostState, ch: byte): HostState {
    match s
    case Userinfo => ParseUserinfoChar(ch)
    case UserinfoStart => ParseUserinfoChar(ch)
    case HostStart => if ch == '[' as int then V6Start else if IsHostChar(ch) then Host else HostDead
    case Host => if IsHostChar(ch) then Host else if ch == ':' as int then PortStart else HostDead
    case V6End => if ch == ':' as int then PortStart else HostDead
    case V6 =>
      if ch == ']' as int then V6End
      else if IsHex(ch) || ch == ':' as int || ch == '.' as int then V6
      else if ch == '%' as int then V6ZoneStart
      else HostDead
    case V6Start => if IsHex(ch) || ch == ':' as int || ch == '.' as int then V6 else HostDead
    case V6Zone => if ch == ']' as int then V6End else ParseZoneChar(ch)
    case V6ZoneStart => ParseZoneChar(ch)
    case Port => if IsNum(ch) then Port else HostDead
    case PortStart => if IsNum(ch) then Port else HostDead
    case HostDead => HostDead
  }

  function ParseUserinfoChar(ch: byte): HostState {
    if ch == '@' as int then HostStart else if IsUserinfoChar(ch) then Userinfo else HostDead
  }

  function ParseZoneChar(ch: byte): HostState {
    if IsAlpha(ch) || IsNum(ch) || ch == '%' as int || ch == '.' as int || ch == '-' as int || ch == '_' as int
       || ch == '~' as int
    then V6Zone else HostDead
  }

  function NumOf(digits: seq<byte>): nat
    requires forall i :: 0 <= i < |digits| ==> IsNum(digits[i])
  {
    if digits == [] then 0
    else
      var last := |digits| - 1;
      assert IsNum(digits[last]);
      NumOf(digits[..last]) * 10 + (digits[last] - '0' as int)
  }

  // ---------------------------------------------------------------- the shape of a split URL

  // The authority starts at k: at the front for CONNECT, else behind "schema://".
  predicate AuthorityAt(buf: seq<byte>, f: Fields, connect: bool, k: nat) {
    if connect then k == 0 && FSchema !in f
    else
      && FSchema in f && f[FSchema].off == 0 && f[FSchema].len > 0
      && f[FSchema].End() + 3 == k <= |buf|
      && buf[k - 3] == ':' as int && buf[k - 2] == '/' as int && buf[k - 1] == '/' as int
  }

  // [a, e) is the authority.
  predicate Authority(buf: seq<byte>, f: Fields, connect: bool, a: nat, e: nat) {
    a < e <= |buf| && AuthorityAt(buf, f, connect, a)
  }

  // k is where everything in front of the path ends; `auth` is the authority, (0, 0) if there is none.
  predicate FrontEnds(buf: seq<byte>, f: Fields, connect: bool, auth: Span, k: nat) {
    if FHost in f then Authority(buf, f, connect, auth.off, auth.End()) && auth.End() == k
    else
      auth == Span(0, 0) && ((k == 0 && FSchema !in f && !connect) || AuthorityAt(buf, f, connect, k))
  }

  predicate PathEnds(buf: seq<byte>, f: Fields, connect: bool, auth: Span, k: nat) {
    if FPath in f then
      && f[FPath].len > 0 && f[FPath].End() == k <= |buf|
      && FrontEnds(buf, f, connect, auth, f[FPath].off)
      && !IsNum(buf[f[FPath].off])
    else FrontEnds(buf, f, connect, auth, k)
  }

  // The query, if any, ends at k; a '?' stands in front of it.
  predicate QueryEnds(buf: seq<byte>, f: Fields, connect: bool, auth: Span, k: nat) {
    if FQuery in f then
      && f[FQuery].len > 0 && f[FQuery].End() == k <= |buf| && f[FQuery].off > 0
      && buf[f[FQuery].off - 1] == '?' as int
      && PathEnds(buf, f, connect, auth, f[FQuery].off - 1)
    else
      || (FPath in f && PathEnds(buf, f, connect, auth, k))
      || (0 < k <= |buf| && buf[k - 1] == '?' as int && PathEnds(buf, f, connect, auth, k - 1))
  }

  // A run of '#' from `hash` to `to` follows the query.
  predicate Hashes(buf: seq<byte>, f: Fields, connect: bool, auth: Span, hash: nat, to: nat) {
    && hash < to <= |buf|
    && (forall i :: hash <= i < to ==> buf[i] == '#' as int)
    && QueryEnds(buf, f, connect, auth, hash)
  }

  // What the scan has recorded when it stands in front of byte p in state s.
  predicate Scanned(buf: seq<byte>, f: Fields, connect: bool, auth: Span, hash: nat, p: nat, s: UrlState) {
    && p <= |buf|
    && match s
       case SpacesBeforeUrl => p == 0 && f == map[] && !connect && auth == Span(0, 0)
       case Schema => f == map[FSchema := Span(0, p)] && p > 0 && !connect && auth == Span(0, 0)
       case SchemaSlash =>
         && p > 1 && f == map[FSchema := Span(0, p - 1)] && buf[p - 1] == ':' as int && !connect && auth == Span(0, 0)
       case SchemaSlashSlash =>
         && p > 2 && f == map[FSchema := Span(0, p - 2)] && buf[p - 2] == ':' as int && buf[p - 1] == '/' as int
         && !connect && auth == Span(0, 0)
       case ServerStart => f.Keys <= {FSchema} && AuthorityAt(buf, f, connect, p) && auth == Span(0, 0)
       case Server => InServer(buf, f, connect, auth, p)
       case ServerWithAt => InServer(buf, f, connect, auth, p)
       case Path => FPath in f && f.Keys <= {FSchema, FHost, FPath} && PathEnds(buf, f, connect, auth, p)
       case QueryStart =>
         && p > 0 && f.Keys <= {FSchema, FHost, FPath} && buf[p - 1] == '?' as int
         && PathEnds(buf, f, connect, auth, p - 1)
       case Query => FQuery in f && f.Keys <= {FSchema, FHost, FPath, FQuery} && QueryEnds(buf, f, connect, auth, p)
       case FragmentStart => f.Keys <= {FSchema, FHost, FPath, FQuery} && Hashes(buf, f, connect, auth, hash, p)
       case Fragment =>
         && FFragment in f && f.Keys <= {FSchema, FHost, FPath, FQuery, FFragment}
         && f[FFragment].len > 0 && f[FFragment].End() == p
         && Hashes(buf, f, connect, auth, hash, f[FFragment].off)
       case UrlDead => false
  }

  predicate InServer(buf: seq<byte>, f: Fields, connect: bool, auth: Span, p: nat) {
    && FHost in f && f.Keys <= {FSchema, FHost} && f[FHost] == auth && auth.len > 0 && auth.End() == p
    && AuthorityAt(buf, f, connect, auth.off)
  }

  // ---------------------------------------------------------------- the shape of an authority

  // [a, k) is "userinfo@", "@" or nothing.
  predicate UserinfoAt(buf: seq<byte>, f: Fields, a: nat, k: nat) {
    if FUserinfo in f then
      f[FUserinfo].off == a && f[FUserinfo].len > 0 && f[FUserinfo].End() + 1 == k <= |buf| && buf[k - 1] == '@' as int
    else a == k || (a + 1 == k <= |buf| && buf[a] == '@' as int)
  }

  // The host starts at h, behind the user part and an opening bracket if it is an IPv6 literal.
  predicate HostAt(buf: seq<byte>, f: Fields, a: nat, h: nat) {
    UserinfoAt(buf, f, a, h) || (0 < h <= |buf| && buf[h - 1] == '[' as int && UserinfoAt(buf, f, a, h - 1))
  }

  predicate HostField(buf: seq<byte>, f: Fields, a: nat) {
    FHost in f && f[FHost].len > 0 && f[FHost].End() <= |buf| && HostAt(buf, f, a, f[FHost].off)
  }

  // The host, with its closing bracket if any, ends at k.
  predicate HostEnds(buf: seq<byte>, f: Fields, a: nat, k: nat) {
    && HostField(buf, f, a)
    && (f[FHost].End() == k || (f[FHost].End() + 1 == k <= |buf| && buf[k - 1] == ']' as int))
  }

  predicate AllDigits(buf: seq<byte>, span: Span) {
    span.End() <= |buf| && forall i :: span.off <= i < span.End() ==> IsNum(buf[i])
  }

  predicate PortEnds(buf: seq<byte>, f: Fields, a: nat, k: nat) {
    && FPort in f && f[FPort].len > 0 && f[FPort].End() == k <= |buf| && f[FPort].off > 0
    && AllDigits(buf, f[FPort])
    && buf[f[FPort].off - 1] == ':' as int
    && HostEnds(buf, f, a, f[FPort].off - 1)
  }

  // authority = [ userinfo "@" ] host [ ":" port ]
  predicate AuthoritySplit(buf: seq<byte>, f: Fields, a: nat, e: nat) {
    if FPort in f then PortEnds(buf, f, a, e) else HostEnds(buf, f, a, e)
  }

  predicate HostScanned(buf: seq<byte>, f: Fields, a: nat, p: nat, s: HostState) {
    && a <= p <= |buf| && FHost in f
    && (FPort in f ==> s == Port)
    && match s
       case UserinfoStart => a == p && FUserinfo !in f
       case Userinfo => FUserinfo in f && f[FUserinfo].off == a && f[FUserinfo].len > 0 && f[FUserinfo].End() == p
       case HostStart => UserinfoAt(buf, f, a, p)
       case V6Start => p > a && buf[p - 1] == '[' as int && UserinfoAt(buf, f, a, p - 1)
       case Host => HostField(buf, f, a) && f[FHost].End() == p
       case V6 => HostField(buf, f, a) && f[FHost].End() == p
       case V6ZoneStart => HostField(buf, f, a) && f[FHost].End() == p
       case V6Zone => HostField(buf, f, a) && f[FHost].End() == p
       case V6End => HostEnds(buf, f, a, p)
       case PortStart => p > a && buf[p - 1] == ':' as int && HostEnds(buf, f, a, p - 1)
       case Port => PortEnds(buf, f, a, p)
       case HostDead => false
  }

  // While no host byte was seen the host span is empty.
  predicate HostUnset(f: Fields, s: HostState) {
    s.UserinfoStart? || s.Userinfo? || s.HostStart? || s.V6Start? ==> FHost in f && f[FHost].len == 0
  }

  function Bump(span: Span): Span { Span(span.off, (span.len + 1) % U16) }

  // What http_parse_host records when byte p leads from state s to state s'.
  function NoteHost(f: Fields, p: nat, s: HostState, s': HostState): Fields
    requires FHost in f
    requires s'.Port? && s.Port? ==> FPort in f
    requires s'.Userinfo? && s.Userinfo? ==> FUserinfo in f
  {
    match s'
    case Host => f[FHost := Bump(if s != Host then Span(p % U16, f[FHost].len) else f[FHost])]
    case V6 => f[FHost := Bump(if s != V6 then Span(p % U16, f[FHost].len) else f[FHost])]
    case V6ZoneStart => f[FHost := Bump(f[FHost])]
    case V6Zone => f[FHost := Bump(f[FHost])]
    case Port => f[FPort := Bump(if s != Port then Span(p % U16, 0) else f[FPort])]
    case Userinfo => f[FUserinfo := Bump(if s != Userinfo then Span(p % U16, 0) else f[FUserinfo])]
    case _ => f
  }

  predicate BeforeHost(s: HostState) { s.UserinfoStart? || s.Userinfo? || s.HostStart? || s.V6Start? }

  predicate InHost(s: HostState) { s.Host? || s.V6? || s.V6ZoneStart? || s.V6Zone? }

  lemma HostStep(buf: seq<byte>, f: Fields, a: nat, p: nat, s: HostState)
    requires |buf| < U16 && p < |buf| && HostScanned(buf, f, a, p, s) && HostUnset(f, s)
    requires ParseHostChar(s, buf[p]) != HostDead
    ensures var s' := ParseHostChar(s, buf[p]);
      && HostScanned(buf, NoteHost(f, p, s, s'), a, p + 1, s')
      && HostUnset(NoteHost(f, p, s, s'), s')
  {
    if BeforeHost(s) { StepBeforeHost(buf, f, a, p, s); }
    else if InHost(s) { StepInHost(buf, f, a, p, s); }
    else { StepAfterHost(buf, f, a, p, s); }
  }

  lemma StepBeforeHost(buf: seq<byte>, f: Fields, a: nat, p: nat, s: HostState)
    requires |buf| < U16 && p < |buf| && HostScanned(buf, f, a, p, s) && HostUnset(f, s)
    requires ParseHostChar(s, buf[p]) != HostDead
    requires BeforeHost(s)
    ensures var s' := ParseHostChar(s, buf[p]);
      && HostScanned(buf, NoteHost(f, p, s, s'), a, p + 1, s')
      && HostUnset(NoteHost(f, p, s, s'), s')
  {
    var s' := ParseHostChar(s, buf[p]);
    var f' := NoteHost(f, p, s, s');
    hide IsUserinfoChar, IsHostChar, IsHex;
    if s.V6Start? { assert f'[FHost] == Span(p, 1) && HostAt(buf, f', a, p); }
    if s.HostStart? { assert UserinfoAt(buf, f', a, p); }
  }

  lemma StepInHost(buf: seq<byte>, f: Fields, a: nat, p: nat, s: HostState)
    requires |buf| < U16 && p < |buf| && HostScanned(buf, f, a, p, s) && HostUnset(f, s)
    requires ParseHostChar(s, buf[p]) != HostDead
    requires InHost(s)
    ensures var s' := ParseHostChar(s, buf[p]);
      && HostScanned(buf, NoteHost(f, p, s, s'), a, p + 1, s')
      && HostUnset(NoteHost(f, p, s, s'), s')
  {
    var s' := ParseHostChar(s, buf[p]);
    var f' := NoteHost(f, p, s, s');
    hide IsHostChar, IsHex, IsAlpha;
    assert HostField(buf, f', a);
  }

  lemma StepAfterHost(buf: seq<byte>, f: Fields, a: nat, p: nat, s: HostState)
    requires |buf| < U16 && p < |buf| && HostScanned(buf, f, a, p, s) && HostUnset(f, s)
    requires ParseHostChar(s, buf[p]) != HostDead
    requires !BeforeHost(s) && !InHost(s)
    ensures var s' := ParseHostChar(s, buf[p]);
      && HostScanned(buf, NoteHost(f, p, s, s'), a, p + 1, s')
      && HostUnset(NoteHost(f, p, s, s'), s')
  {
    var s' := ParseHostChar(s, buf[p]);
    var f' := NoteHost(f, p, s, s');
    hide HostAt;
    assert HostField(buf, f', a);
    if !s.V6End? { assert AllDigits(buf, f'[FPort]); }
  }

  // ---------------------------------------------------------------- the scan of the whole URL

  // The field a byte belongs to once it has led to state s; delimiters belong to none.
  function FieldOf(s: UrlState): Option<Field> {
    match s
    case Schema => Some(FSchema)
    case Server => Some(FHost)
    case ServerWithAt => Some(FHost)
    case Path => Some(FPath)
    case Query => Some(FQuery)
    case Fragment => Some(FFragment)
    case _ => None
  }

  // A field byte at p extends the field seen last or starts a new one.
  function Note(f: Fields, last: Option<Field>, p: nat, uf: Field): Fields
    requires last.Some? ==> last.value in f
  {
    if last == Some(uf) then f[uf := Bump(f[uf])] else f[uf := Span(p % U16, 1)]
  }

  // `last` is the current field, or one that cannot come next.
  predicate LastOk(f: Fields, s: UrlState, last: Option<Field>) {
    && (last.Some? ==> last.value in f)
    && (FieldOf(s).Some? ==> last == FieldOf(s))
  }

  ghost predicate ScannedOk(buf: seq<byte>, f: Fields, connect: bool, auth: Span, hash: nat, p: nat, s: UrlState, last: Option<Field>) {
    Scanned(buf, f, connect, auth, hash, p, s) && LastOk(f, s, last) && (FHost in f ==> f[FHost] == auth)
  }

  // The authority and the first '#' as the scan finds them.
  function AuthNext(auth: Span, s: UrlState, s': UrlState, p: nat): Span {
    if s'.Server? || s'.ServerWithAt? then
      (if s.Server? || s.ServerWithAt? then Span(auth.off, auth.len + 1) else Span(p, 1))
    else auth
  }

  function HashNext(hash: nat, s: UrlState, s': UrlState, p: nat): nat {
    if s'.FragmentStart? && !s.FragmentStart? then p else hash
  }

  function FieldsNext(f: Fields, last: Option<Field>, s': UrlState, p: nat): Fields
    requires last.Some? ==> last.value in f
  {
    if FieldOf(s').Some? then Note(f, last, p, FieldOf(s').value) else f
  }

  predicate EarlyState(s: UrlState) {
    s.SpacesBeforeUrl? || s.Schema? || s.SchemaSlash? || s.SchemaSlashSlash? || s.ServerStart? || s.Server? || s.ServerWithAt?
  }

  lemma ScanEarly(buf: seq<byte>, f: Fields, connect: bool, auth: Span, hash: nat, p: nat, s: UrlState, last: Option<Field>)
    requires |buf| < U16 && p < |buf| && ScannedOk(buf, f, connect, auth, hash, p, s, last) && EarlyState(s)
    requires ParseUrlChar(s, buf[p]) != UrlDead
    ensures var s' := ParseUrlChar(s, buf[p]);
      ScannedOk(buf, FieldsNext(f, last, s', p), connect, AuthNext(auth, s, s', p), HashNext(hash, s, s', p), p + 1, s',
                if FieldOf(s').Some? then FieldOf(s') else last)
  {
    hide ScannedOk, ParseUrlChar, FieldsNext, AuthNext, HashNext, FieldOf;
    if ServerState(s) {
      ScanServer(buf, f, connect, auth, hash, p, s, last);
    } else {
      ScanFront(buf, f, connect, auth, hash, p, s, last);
    }
  }

  predicate ServerState(s: UrlState) { s.ServerStart? || s.Server? || s.ServerWithAt? }

  lemma ScanFront(buf: seq<byte>, f: Fields, connect: bool, auth: Span, hash: nat, p: nat, s: UrlState, last: Option<Field>)
    requires |buf| < U16 && p < |buf| && ScannedOk(buf, f, connect, auth, hash, p, s, last) && EarlyState(s) && !ServerState(s)
    requires ParseUrlChar(s, buf[p]) != UrlDead
    ensures var s' := ParseUrlChar(s, buf[p]);
      ScannedOk(buf, FieldsNext(f, last, s', p), connect, AuthNext(auth, s, s', p), HashNext(hash, s, s', p), p + 1, s',
                if FieldOf(s').Some? then FieldOf(s') else last)
  {
    var s' := ParseUrlChar(s, buf[p]);
    var f' := FieldsNext(f, last, s', p);
    match s
    case SpacesBeforeUrl => assert f' == map[FSchema := Span(0, 1)] || f' == map[FPath := Span(0, 1)];
    case Schema => assert s'.Schema? ==> f' == map[FSchema := Span(0, p + 1)];
    case _ =>
  }

  lemma ScanServer(buf: seq<byte>, f: Fields, connect: bool, auth: Span, hash: nat, p: nat, s: UrlState, last: Option<Field>)
    requires |buf| < U16 && p < |buf| && ScannedOk(buf, f, connect, auth, hash, p, s, last) && ServerState(s)
    requires ParseUrlChar(s, buf[p]) != UrlDead
    ensures var s' := ParseUrlChar(s, buf[p]);
      ScannedOk(buf, FieldsNext(f, last, s', p), connect, AuthNext(auth, s, s', p), HashNext(hash, s, s', p), p + 1, s',
                if FieldOf(s').Some? then FieldOf(s') else last)
  {
    hide ScannedOk, FieldsNext, AuthNext, HashNext, FieldOf, IsUserinfoChar;
    if ServerState(ParseUrlChar(s, buf[p])) {
      ServerGoesOn(buf, f, connect, auth, hash, p, s, last);
    } else {
      ServerStops(buf, f, connect, auth, hash, p, s, last);
    }
  }

  lemma ServerGoesOn(buf: seq<byte>, f: Fields, connect: bool, auth: Span, hash: nat, p: nat, s: UrlState, last: Option<Field>)
    requires |buf| < U16 && p < |buf| && ScannedOk(buf, f, connect, auth, hash, p, s, last) && ServerState(s)
    requires ServerState(ParseUrlChar(s, buf[p])) && !ParseUrlChar(s, buf[p]).ServerStart?
    ensures var s' := ParseUrlChar(s, buf[p]);
      ScannedOk(buf, FieldsNext(f, last, s', p), connect, AuthNext(auth, s, s', p), HashNext(hash, s, s', p), p + 1, s',
                if FieldOf(s').Some? then FieldOf(s') else last)
  {
    hide IsUserinfoChar, IsUrlChar;
  }

  lemma ServerStops(buf: seq<byte>, f: Fields, connect: bool, auth: Span, hash: nat, p: nat, s: UrlState, last: Option<Field>)
    requires |buf| < U16 && p < |buf| && ScannedOk(buf, f, connect, auth, hash, p, s, last) && ServerState(s)
    requires ParseUrlChar(s, buf[p]).Path? || ParseUrlChar(s, buf[p]).QueryStart?
    ensures var s' := ParseUrlChar(s, buf[p]);
      ScannedOk(buf, FieldsNext(f, last, s', p), connect, AuthNext(auth, s, s', p), HashNext(hash, s, s', p), p + 1, s',
                if FieldOf(s').Some? then FieldOf(s') else last)
  {
    var s' := ParseUrlChar(s, buf[p]);
    var f' := FieldsNext(f, last, s', p);
    FrontReached(buf, f, connect, auth, hash, p, s);
    hide FrontEnds, InServer, AuthorityAt, IsUserinfoChar, IsUrlChar;
    FrontKept(buf, f, f', connect, auth, p);
    assert s'.Path? ==> f'[FPath] == Span(p, 1) && f'[FPath].End() == p + 1 && !IsNum(buf[p]);
  }

  lemma FrontReached(buf: seq<byte>, f: Fields, connect: bool, auth: Span, hash: nat, p: nat, s: UrlState)
    requires ServerState(s) && Scanned(buf, f, connect, auth, hash, p, s)
    ensures FrontEnds(buf, f, connect, auth, p) && f.Keys <= {FSchema, FHost}
  {
    hide AuthorityAt;
    if s.ServerStart? {
      assert FHost !in f.Keys;
    } else {
      assert InServer(buf, f, connect, auth, p);
      InServerEnds(buf, f, connect, auth, p);
    }
  }

  lemma InServerEnds(buf: seq<byte>, f: Fields, connect: bool, auth: Span, p: nat)
    requires p <= |buf| && InServer(buf, f, connect, auth, p)
    ensures FrontEnds(buf, f, connect, auth, p)
  {
    hide AuthorityAt;
  }

  lemma ScanPath(buf: seq<byte>, f: Fields, connect: bool, auth: Span, hash: nat, p: nat, s: UrlState, last: Option<Field>)
    requires |buf| < U16 && p < |buf| && ScannedOk(buf, f, connect, auth, hash, p, s, last) && (s.Path?)
    requires ParseUrlChar(s, buf[p]) != UrlDead
    ensures var s' := ParseUrlChar(s, buf[p]);
      ScannedOk(buf, FieldsNext(f, last, s', p), connect, AuthNext(auth, s, s', p), HashNext(hash, s, s', p), p + 1, s',
                if FieldOf(s').Some? then FieldOf(s') else last)
  {
    var s' := ParseUrlChar(s, buf[p]);
    hide FrontEnds, IsUrlChar;
    FrontKept(buf, f, FieldsNext(f, last, s', p), connect, auth, f[FPath].off);
  }

  lemma QueryGoesOn(buf: seq<byte>, f: Fields, connect: bool, auth: Span, hash: nat, p: nat, s: UrlState, last: Option<Field>)
    requires |buf| < U16 && p < |buf| && ScannedOk(buf, f, connect, auth, hash, p, s, last) && (s.QueryStart? || s.Query?)
    requires ParseUrlChar(s, buf[p]).Query?
    ensures var s' := ParseUrlChar(s, buf[p]);
      ScannedOk(buf, FieldsNext(f, last, s', p), connect, AuthNext(auth, s, s', p), HashNext(hash, s, s', p), p + 1, s',
                if FieldOf(s').Some? then FieldOf(s') else last)
  {
    var s' := ParseUrlChar(s, buf[p]);
    var f' := FieldsNext(f, last, s', p);
    hide FrontEnds, PathEnds, IsUrlChar, Hashes;
    PathKept(buf, f, f', connect, auth);
  }

  lemma QueryStops(buf: seq<byte>, f: Fields, connect: bool, auth: Span, hash: nat, p: nat, s: UrlState, last: Option<Field>)
    requires |buf| < U16 && p < |buf| && ScannedOk(buf, f, connect, auth, hash, p, s, last) && (s.QueryStart? || s.Query?)
    requires ParseUrlChar(s, buf[p]).FragmentStart?
    ensures var s' := ParseUrlChar(s, buf[p]);
      ScannedOk(buf, FieldsNext(f, last, s', p), connect, AuthNext(auth, s, s', p), HashNext(hash, s, s', p), p + 1, s',
                if FieldOf(s').Some? then FieldOf(s') else last)
  {
    var s' := ParseUrlChar(s, buf[p]);
    var f' := FieldsNext(f, last, s', p);
    hide FrontEnds, PathEnds, IsUrlChar;
    PathKept(buf, f, f', connect, auth);
  }

  lemma ScanQuery(buf: seq<byte>, f: Fields, connect: bool, auth: Span, hash: nat, p: nat, s: UrlState, last: Option<Field>)
    requires |buf| < U16 && p < |buf| && ScannedOk(buf, f, connect, auth, hash, p, s, last) && (s.QueryStart? || s.Query?)
    requires ParseUrlChar(s, buf[p]) != UrlDead
    ensures var s' := ParseUrlChar(s, buf[p]);
      ScannedOk(buf, FieldsNext(f, last, s', p), connect, AuthNext(auth, s, s', p), HashNext(hash, s, s', p), p + 1, s',
                if FieldOf(s').Some? then FieldOf(s') else last)
  {
    if ParseUrlChar(s, buf[p]).Query? { QueryGoesOn(buf, f, connect, auth, hash, p, s, last); }
    else { QueryStops(buf, f, connect, auth, hash, p, s, last); }
    hide ScannedOk, IsUrlChar;
  }

  lemma FragmentGoesOn(buf: seq<byte>, f: Fields, connect: bool, auth: Span, hash: nat, p: nat, s: UrlState, last: Option<Field>)
    requires |buf| < U16 && p < |buf| && ScannedOk(buf, f, connect, auth, hash, p, s, last) && (s.FragmentStart? || s.Fragment?)
    requires ParseUrlChar(s, buf[p]).Fragment?
    ensures var s' := ParseUrlChar(s, buf[p]);
      ScannedOk(buf, FieldsNext(f, last, s', p), connect, AuthNext(auth, s, s', p), HashNext(hash, s, s', p), p + 1, s',
                if FieldOf(s').Some? then FieldOf(s') else last)
  {
    var s' := ParseUrlChar(s, buf[p]);
    hide PathEnds, QueryEnds, IsUrlChar;
    QueryKept(buf, f, FieldsNext(f, last, s', p), connect, auth, hash);
  }

  lemma HashAgain(buf: seq<byte>, f: Fields, connect: bool, auth: Span, hash: nat, p: nat, s: UrlState, last: Option<Field>)
    requires |buf| < U16 && p < |buf| && ScannedOk(buf, f, connect, auth, hash, p, s, last) && (s.FragmentStart? || s.Fragment?)
    requires ParseUrlChar(s, buf[p]).FragmentStart?
    ensures var s' := ParseUrlChar(s, buf[p]);
      ScannedOk(buf, FieldsNext(f, last, s', p), connect, AuthNext(auth, s, s', p), HashNext(hash, s, s', p), p + 1, s',
                if FieldOf(s').Some? then FieldOf(s') else last)
  {
    var s' := ParseUrlChar(s, buf[p]);
    hide PathEnds, QueryEnds, IsUrlChar;
    QueryKept(buf, f, FieldsNext(f, last, s', p), connect, auth, hash);
  }

  lemma ScanFragment(buf: seq<byte>, f: Fields, connect: bool, auth: Span, hash: nat, p: nat, s: UrlState, last: Option<Field>)
    requires |buf| < U16 && p < |buf| && ScannedOk(buf, f, connect, auth, hash, p, s, last) && (s.FragmentStart? || s.Fragment?)
    requires ParseUrlChar(s, buf[p]) != UrlDead
    ensures var s' := ParseUrlChar(s, buf[p]);
      ScannedOk(buf, FieldsNext(f, last, s', p), connect, AuthNext(auth, s, s', p), HashNext(hash, s, s', p), p + 1, s',
                if FieldOf(s').Some? then FieldOf(s') else last)
  {
    if ParseUrlChar(s, buf[p]).Fragment? { FragmentGoesOn(buf, f, connect, auth, hash, p, s, last); }
    else { HashAgain(buf, f, connect, auth, hash, p, s, last); }
    hide ScannedOk, IsUrlChar;
  }

  lemma QueryKept(buf: seq<byte>, f: Fields, f': Fields, connect: bool, auth: Span, k: nat)
    requires QueryEnds(buf, f, connect, auth, k)
    requires SameField(f, f', FSchema) && SameField(f, f', FPath) && SameField(f, f', FQuery) && (FHost in f <==> FHost in f')
    ensures QueryEnds(buf, f', connect, auth, k)
  {
    hide PathEnds;
    PathKept(buf, f, f', connect, auth);
  }

  lemma FrontKept(buf: seq<byte>, f: Fields, f': Fields, connect: bool, auth: Span, k: nat)
    requires FrontEnds(buf, f, connect, auth, k)
    requires SameField(f, f', FSchema) && (FHost in f <==> FHost in f')
    ensures FrontEnds(buf, f', connect, auth, k)
  {
  }

  predicate SameField(f: Fields, f': Fields, uf: Field) {
    (uf in f <==> uf in f') && (uf in f ==> f'[uf] == f[uf])
  }

  lemma PathKept(buf: seq<byte>, f: Fields, f': Fields, connect: bool, auth: Span)
    requires SameField(f, f', FSchema) && SameField(f, f', FPath) && (FHost in f <==> FHost in f')
    ensures forall k :: 0 <= k && PathEnds(buf, f, connect, auth, k) ==> PathEnds(buf, f', connect, auth, k)
  {
    forall k | 0 <= k && PathEnds(buf, f, connect, auth, k) ensures PathEnds(buf, f', connect, auth, k) {
      FrontKept(buf, f, f', connect, auth, if FPath in f then f[FPath].off else k);
    }
  }

  lemma ScanStep(buf: seq<byte>, f: Fields, connect: bool, auth: Span, hash: nat, p: nat, s: UrlState, last: Option<Field>)
    requires |buf| < U16 && p < |buf| && ScannedOk(buf, f, connect, auth, hash, p, s, last)
    requires ParseUrlChar(s, buf[p]) != UrlDead
    ensures var s' := ParseUrlChar(s, buf[p]);
      ScannedOk(buf, FieldsNext(f, last, s', p), connect, AuthNext(auth, s, s', p), HashNext(hash, s, s', p), p + 1, s',
                if FieldOf(s').Some? then FieldOf(s') else last)
  {
    hide ScannedOk, ParseUrlChar;
    if EarlyState(s) { ScanEarly(buf, f, connect, auth, hash, p, s, last); }
    else if s.Path? { ScanPath(buf, f, connect, auth, hash, p, s, last); }
    else if s.QueryStart? || s.Query? { ScanQuery(buf, f, connect, auth, hash, p, s, last); }
    else { NotDead(buf, f, connect, auth, hash, p, s, last); ScanFragment(buf, f, connect, auth, hash, p, s, last); }
  }

  lemma NotDead(buf: seq<byte>, f: Fields, connect: bool, auth: Span, hash: nat, p: nat, s: UrlState, last: Option<Field>)
    requires ScannedOk(buf, f, connect, auth, hash, p, s, last)
    ensures s != UrlDead
  {
  }

  lemma ScanBegins(buf: seq<byte>, connect: bool, s: UrlState)
    requires s == if connect then ServerStart else SpacesBeforeUrl
    ensures ScannedOk(buf, map[], connect, Span(0, 0), 0, 0, s, None)
  {
  }

  // ---------------------------------------------------------------- the split URL

  // The whole buffer is accounted for: scheme and authority, path, query, fragment, each in its
  // place and separated by its own delimiters.
  predicate WholeUrl(buf: seq<byte>, f: Fields, connect: bool, auth: Span, hash: nat) {
    if FFragment in f then
      && f[FFragment].len > 0 && f[FFragment].End() == |buf|
      && Hashes(buf, f, connect, auth, hash, f[FFragment].off)
    else
      || (FQuery !in f && PathEnds(buf, f, connect, auth, |buf|))
      || QueryEnds(buf, f, connect, auth, |buf|)
      || Hashes(buf, f, connect, auth, hash, |buf|)
  }

  predicate UrlSplit(buf: seq<byte>, f: Fields, connect: bool, auth: Span, hash: nat) {
    && WholeUrl(buf, f, connect, auth, hash)
    && (FSchema in f ==> FHost in f)
    && (if FHost in f then AuthoritySplit(buf, f, auth.off, auth.End()) else FPort !in f && FUserinfo !in f)
    && (connect ==> f.Keys == {FHost, FPort})
  }

  predicate InBuffer(f: Fields, n: nat) {
    forall uf :: uf in f ==> f[uf].End() <= n
  }

  lemma NothingNoted(n: nat)
    ensures InBuffer(map[], n)
  {
  }

  lemma InBufferGrows(f: Fields, p: nat, n: nat)
    requires InBuffer(f, p) && p <= n
    ensures InBuffer(f, n)
  {
  }

  // A byte noted at p keeps the fields inside what has been read.
  lemma NoteInside(f: Fields, last: Option<Field>, p: nat, uf: Field)
    requires last.Some? ==> last.value in f
    requires InBuffer(f, p) && FPort !in f && FUserinfo !in f && uf != FPort && uf != FUserinfo
    ensures var g := Note(f, last, p, uf);
      uf in g && InBuffer(g, p + 1) && FPort !in g && FUserinfo !in g
  {
    hide Bump;
    if last == Some(uf) { BumpEnd(f[uf], p); } else { FirstEnd(p); }
  }

  // The digits at the front of buf[from..], as strtoul reads them.
  function DigitRun(buf: seq<byte>, from: nat): (r: seq<byte>)
    requires from <= |buf|
    ensures forall i :: 0 <= i < |r| ==> IsNum(r[i])
    decreases |buf| - from
  {
    if from < |buf| && IsNum(buf[from]) then [buf[from]] + DigitRun(buf, from + 1) else []
  }

  lemma {:induction false} DigitRunIs(buf: seq<byte>, span: Span, k: nat)
    requires AllDigits(buf, span) && k <= span.len
    requires span.End() == |buf| || !IsNum(buf[span.End()])
    ensures DigitRun(buf, span.off + k) == buf[span.off + k..span.End()]
    decreases span.len - k
  {
    if k < span.len {
      DigitRunIs(buf, span, k + 1);
      assert [buf[span.off + k]] + buf[span.off + k + 1..span.End()] == buf[span.off + k..span.End()];
    }
  }

  lemma ScanDone(buf: seq<byte>, f: Fields, connect: bool, auth: Span, hash: nat, s: UrlState, last: Option<Field>)
    requires ScannedOk(buf, f, connect, auth, hash, |buf|, s, last)
    requires FSchema in f ==> FHost in f
    ensures WholeUrl(buf, f, connect, auth, hash) && (FHost in f ==> f[FHost] == auth)
  {
    hide Scanned, ScannedOk, PathEnds, QueryEnds, Hashes;
    if EarlyState(s) { EarlyDone(buf, f, connect, auth, hash, s, last); }
    else { LateDone(buf, f, connect, auth, hash, s, last); }
  }

  lemma EarlyDone(buf: seq<byte>, f: Fields, connect: bool, auth: Span, hash: nat, s: UrlState, last: Option<Field>)
    requires ScannedOk(buf, f, connect, auth, hash, |buf|, s, last) && EarlyState(s)
    requires FSchema in f ==> FHost in f
    ensures PathEnds(buf, f, connect, auth, |buf|) && FQuery !in f && FFragment !in f
    ensures FHost in f ==> f[FHost] == auth
  {
    match s
    case Server => assert FrontEnds(buf, f, connect, auth, |buf|);
    case ServerWithAt => assert FrontEnds(buf, f, connect, auth, |buf|);
    case ServerStart =>
    case SpacesBeforeUrl =>
    case _ =>
  }

  lemma LateDone(buf: seq<byte>, f: Fields, connect: bool, auth: Span, hash: nat, s: UrlState, last: Option<Field>)
    requires ScannedOk(buf, f, connect, auth, hash, |buf|, s, last) && !EarlyState(s)
    ensures WholeUrl(buf, f, connect, auth, hash) && (FHost in f ==> f[FHost] == auth)
  {
    hide PathEnds, Hashes;
    if s.QueryStart? { assert QueryEnds(buf, f, connect, auth, |buf|); }
  }

  // The authority is there and, up to k, nothing or a byte that is no digit follows it.
  predicate StopsBy(buf: seq<byte>, auth: Span, k: nat) {
    auth.len > 0 && auth.End() <= k <= |buf| && (auth.End() < k ==> !IsNum(buf[auth.End()]))
  }

  lemma StopsByPath(buf: seq<byte>, f: Fields, connect: bool, auth: Span, k: nat)
    requires PathEnds(buf, f, connect, auth, k) && FHost in f
    ensures StopsBy(buf, auth, k)
  {
  }

  lemma StopsByQuery(buf: seq<byte>, f: Fields, connect: bool, auth: Span, k: nat)
    requires QueryEnds(buf, f, connect, auth, k) && FHost in f
    ensures StopsBy(buf, auth, k)
  {
    hide PathEnds;
    if FQuery in f {
      StopsByPath(buf, f, connect, auth, f[FQuery].off - 1);
    } else if FPath in f && PathEnds(buf, f, connect, auth, k) {
      StopsByPath(buf, f, connect, auth, k);
    } else {
      StopsByPath(buf, f, connect, auth, k - 1);
    }
  }

  // Behind the authority comes the end of the buffer or a byte that is no digit.
  lemma AuthorityStops(buf: seq<byte>, f: Fields, connect: bool, auth: Span, hash: nat)
    requires WholeUrl(buf, f, connect, auth, hash) && FHost in f
    ensures StopsBy(buf, auth, |buf|)
  {
    hide PathEnds, QueryEnds;
    if FQuery !in f && FFragment !in f && PathEnds(buf, f, connect, auth, |buf|) {
      StopsByPath(buf, f, connect, auth, |buf|);
    } else if FFragment !in f && QueryEnds(buf, f, connect, auth, |buf|) {
      StopsByQuery(buf, f, connect, auth, |buf|);
    } else {
      StopsByQuery(buf, f, connect, auth, hash);
    }
  }

  lemma WholeUrlKept(buf: seq<byte>, f: Fields, f': Fields, connect: bool, auth: Span, hash: nat)
    requires WholeUrl(buf, f, connect, auth, hash)
    requires SameField(f, f', FSchema) && SameField(f, f', FPath) && SameField(f, f', FQuery) && SameField(f, f', FFragment)
    requires FHost in f <==> FHost in f'
    ensures WholeUrl(buf, f', connect, auth, hash)
  {
    hide PathEnds, FrontEnds;
    PathKept(buf, f, f', connect, auth);
  }

  // ---------------------------------------------------------------- which URLs are accepted

  function UrlStart(connect: bool): UrlState { if connect then ServerStart else SpacesBeforeUrl }

  // The URL machine behind `bytes`.
  function UrlAfter(connect: bool, bytes: seq<byte>): UrlState {
    if bytes == [] then UrlStart(connect)
    else ParseUrlChar(UrlAfter(connect, bytes[..|bytes| - 1]), bytes[|bytes| - 1])
  }

  // The fields that some byte belongs to.
  function Marked(connect: bool, bytes: seq<byte>): set<Field> {
    if bytes == [] then {}
    else
      Marked(connect, bytes[..|bytes| - 1])
      + match FieldOf(UrlAfter(connect, bytes)) case None => {} case Some(uf) => {uf}
  }

  // The authority has an '@'.
  predicate HasAt(connect: bool, bytes: seq<byte>) {
    bytes != [] && (HasAt(connect, bytes[..|bytes| - 1]) || UrlAfter(connect, bytes).ServerWithAt?)
  }

  // The bytes that belong to a field, as the scan tells them apart.
  function PartOf(connect: bool, bytes: seq<byte>, uf: Field): seq<byte> {
    if bytes == [] then []
    else
      PartOf(connect, bytes[..|bytes| - 1], uf)
      + if FieldOf(UrlAfter(connect, bytes)) == Some(uf) then [bytes[|bytes| - 1]] else []
  }

  function AuthorityOf(connect: bool, bytes: seq<byte>): seq<byte> { PartOf(connect, bytes, FHost) }

  function HostBegin(at: bool): HostState { if at then UserinfoStart else HostStart }

  // The host machine behind `bytes`.
  function HostAfter(at: bool, bytes: seq<byte>): HostState {
    if bytes == [] then HostBegin(at) else ParseHostChar(HostAfter(at, bytes[..|bytes| - 1]), bytes[|bytes| - 1])
  }

  predicate HasUserinfo(at: bool, bytes: seq<byte>) {
    bytes != [] && (HasUserinfo(at, bytes[..|bytes| - 1]) || HostAfter(at, bytes).Userinfo?)
  }

  // The part of the authority that a byte belongs to once it has led to state s.
  function HostFieldOf(s: HostState): Option<Field> {
    match s
    case Userinfo => Some(FUserinfo)
    case Host => Some(FHost)
    case V6 => Some(FHost)
    case V6ZoneStart => Some(FHost)
    case V6Zone => Some(FHost)
    case Port => Some(FPort)
    case _ => None
  }

  function HostPart(at: bool, bytes: seq<byte>, uf: Field): (r: seq<byte>)
    ensures uf == FPort ==> forall i :: 0 <= i < |r| ==> IsNum(r[i])
  {
    if bytes == [] then []
    else
      HostPart(at, bytes[..|bytes| - 1], uf)
      + if HostFieldOf(HostAfter(at, bytes)) == Some(uf) then [bytes[|bytes| - 1]] else []
  }

  function PortOf(at: bool, bytes: seq<byte>): (r: seq<byte>)
    ensures forall i :: 0 <= i < |r| ==> IsNum(r[i])
  {
    HostPart(at, bytes, FPort)
  }

  // The text of each field of a URL; the authority is split once more.
  function TextOf(connect: bool, bytes: seq<byte>, uf: Field): seq<byte> {
    if uf == FHost || uf == FPort || uf == FUserinfo then
      HostPart(HasAt(connect, bytes), AuthorityOf(connect, bytes), uf)
    else PartOf(connect, bytes, uf)
  }

  // The fields hold these texts, and those without text are not set.
  predicate Texts(buf: seq<byte>, connect: bool, f: Fields)
    requires InBuffer(f, |buf|)
  {
    forall uf: Field :: TextOf(connect, buf, uf) == if uf in f then buf[f[uf].off..f[uf].End()] else []
  }

  // An authority may end in a host, a bracketed host, or a port.
  predicate HostEndsWell(s: HostState) { s.Host? || s.V6End? || s.Port? }

  predicate AcceptsHost(connect: bool, at: bool, auth: seq<byte>) {
    && HostEndsWell(HostAfter(at, auth))
    && (connect ==> HostAfter(at, auth).Port? && !HasUserinfo(at, auth))
    && NumOf(PortOf(at, auth)) <= 0xffff
  }

  // Neither machine fails, a schema has a host, CONNECT has exactly host and port, and the port fits.
  predicate Accepts(connect: bool, bytes: seq<byte>) {
    var marked := Marked(connect, bytes);
    && !UrlAfter(connect, bytes).UrlDead?
    && (FSchema in marked ==> FHost in marked)
    && (connect ==> marked == {FHost})
    && (FHost in marked ==> AcceptsHost(connect, HasAt(connect, bytes), AuthorityOf(connect, bytes)))
  }

  lemma {:induction false} DeadUrlStays(connect: bool, bytes: seq<byte>, k: nat)
    requires k <= |bytes| && UrlAfter(connect, bytes[..k]).UrlDead?
    ensures UrlAfter(connect, bytes).UrlDead?
    decreases |bytes|
  {
    if k == |bytes| {
      assert bytes[..k] == bytes;
    } else {
      var front := bytes[..|bytes| - 1];
      assert front[..k] == bytes[..k];
      DeadUrlStays(connect, front, k);
    }
  }

  lemma {:induction false} DeadHostStays(at: bool, bytes: seq<byte>, k: nat)
    requires k <= |bytes| && HostAfter(at, bytes[..k]).HostDead?
    ensures HostAfter(at, bytes).HostDead?
    decreases |bytes|
  {
    if k == |bytes| {
      assert bytes[..k] == bytes;
    } else {
      var front := bytes[..|bytes| - 1];
      assert front[..k] == bytes[..k];
      DeadHostStays(at, front, k);
    }
  }

  // What the scan knows in front of byte p; the text of the authority if no offset wraps.
  ghost predicate UrlTraced(buf: seq<byte>, connect: bool, p: nat, f: Fields, s: UrlState, at: bool)
    requires p <= |buf| && InBuffer(f, p)
  {
    && s == UrlAfter(connect, buf[..p]) && f.Keys == Marked(connect, buf[..p]) && (at <==> HasAt(connect, buf[..p]))
    && (|buf| < U16 ==> forall uf: Field ::
          PartOf(connect, buf[..p], uf) == if uf in f then buf[f[uf].off..f[uf].End()] else [])
  }

  lemma UrlTracedFirst(buf: seq<byte>, connect: bool)
    ensures UrlTraced(buf, connect, 0, map[], UrlStart(connect), false)
  {
    assert buf[..0] == [];
  }

  lemma UrlOneMore(buf: seq<byte>, connect: bool, p: nat)
    requires p < |buf|
    ensures var a, b := buf[..p], buf[..p + 1];
      && UrlAfter(connect, b) == ParseUrlChar(UrlAfter(connect, a), buf[p])
      && Marked(connect, b) == Marked(connect, a) + (match FieldOf(UrlAfter(connect, b)) case None => {} case Some(uf) => {uf})
      && (HasAt(connect, b) <==> HasAt(connect, a) || UrlAfter(connect, b).ServerWithAt?)
      && forall uf: Field ::
           PartOf(connect, b, uf) == PartOf(connect, a, uf) + if FieldOf(UrlAfter(connect, b)) == Some(uf) then [buf[p]] else []
  {
    assert buf[..p + 1][..p] == buf[..p];
  }

  // The next byte of a field is its first one, or follows the others.
  predicate FieldReady(f: Fields, last: Option<Field>, p: nat, uf: Field) {
    if uf in f then last == Some(uf) && f[uf].End() == p else last != Some(uf)
  }

  // Of the fields that a state can lead into only that of the state itself is there already.
  lemma NewField(s: UrlState, ch: byte)
    ensures var to := FieldOf(ParseUrlChar(s, ch));
      to == None || to == FieldOf(s)
      || (match s
          case SpacesBeforeUrl => true
          case ServerStart => to != Some(FSchema)
          case Server => to == Some(FPath)
          case ServerWithAt => to == Some(FPath)
          case QueryStart => to == Some(FQuery)
          case FragmentStart => to == Some(FFragment)
          case _ => false)
  {
    hide IsUrlChar, IsUserinfoChar, IsAlpha;
  }

  lemma FieldIsReady(buf: seq<byte>, f: Fields, connect: bool, auth: Span, hash: nat, p: nat, s: UrlState, last: Option<Field>)
    requires p < |buf| && (|buf| < U16 ==> ScannedOk(buf, f, connect, auth, hash, p, s, last))
    ensures |buf| < U16 && FieldOf(ParseUrlChar(s, buf[p])).Some? ==>
      FieldReady(f, last, p, FieldOf(ParseUrlChar(s, buf[p])).value)
  {
    hide ParseUrlChar, AuthorityAt, FrontEnds;
    NewField(s, buf[p]);
  }

  lemma PartNext(buf: seq<byte>, f: Fields, last: Option<Field>, p: nat, uf: Field)
    requires |buf| < U16 && p < |buf| && (last.Some? ==> last.value in f) && FieldReady(f, last, p, uf)
    ensures var g := Note(f, last, p, uf);
      && uf in g && g[uf].End() == p + 1
      && buf[g[uf].off..p + 1] == (if uf in f then buf[f[uf].off..p] else []) + [buf[p]]
  {
    var g := Note(f, last, p, uf);
    assert buf[g[uf].off..p + 1] == buf[g[uf].off..p] + [buf[p]];
  }

  lemma UrlTracedStep(buf: seq<byte>, f: Fields, connect: bool, p: nat, s: UrlState, last: Option<Field>, at: bool)
    requires p < |buf| && InBuffer(f, p) && UrlTraced(buf, connect, p, f, s, at) && (last.Some? ==> last.value in f)
    requires InBuffer(FieldsNext(f, last, ParseUrlChar(s, buf[p]), p), p + 1)
    requires |buf| < U16 && FieldOf(ParseUrlChar(s, buf[p])).Some? ==>
      FieldReady(f, last, p, FieldOf(ParseUrlChar(s, buf[p])).value)
    ensures var s' := ParseUrlChar(s, buf[p]);
      UrlTraced(buf, connect, p + 1, FieldsNext(f, last, s', p), s', at || s'.ServerWithAt?)
  {
    hide ParseUrlChar, UrlAfter, Marked, HasAt, PartOf, FieldsNext, FieldOf;
    UrlOneMore(buf, connect, p);
    FieldsNextKeys(f, last, ParseUrlChar(s, buf[p]), p);
    if |buf| < U16 {
      forall uf: Field
        ensures var g := FieldsNext(f, last, ParseUrlChar(s, buf[p]), p);
          PartOf(connect, buf[..p + 1], uf) == if uf in g then buf[g[uf].off..g[uf].End()] else []
      {
        UrlTextStep(buf, f, connect, p, s, last, at, uf);
      }
    }
  }

  lemma FieldsNextKeys(f: Fields, last: Option<Field>, s': UrlState, p: nat)
    requires last.Some? ==> last.value in f
    ensures FieldsNext(f, last, s', p).Keys == f.Keys + (match FieldOf(s') case None => {} case Some(uf) => {uf})
  {
    hide FieldOf, Bump;
  }

  lemma UrlTextStep(buf: seq<byte>, f: Fields, connect: bool, p: nat, s: UrlState, last: Option<Field>, at: bool, uf: Field)
    requires |buf| < U16 && p < |buf| && InBuffer(f, p) && UrlTraced(buf, connect, p, f, s, at) && (last.Some? ==> last.value in f)
    requires InBuffer(FieldsNext(f, last, ParseUrlChar(s, buf[p]), p), p + 1)
    requires FieldOf(ParseUrlChar(s, buf[p])) == Some(uf) ==> FieldReady(f, last, p, uf)
    ensures var g := FieldsNext(f, last, ParseUrlChar(s, buf[p]), p);
      PartOf(connect, buf[..p + 1], uf) == if uf in g then buf[g[uf].off..g[uf].End()] else []
  {
    hide ParseUrlChar, UrlAfter, Marked, HasAt, PartOf, Note, FieldsNext, FieldOf;
    UrlOneMore(buf, connect, p);
    FieldsNextAt(f, last, ParseUrlChar(s, buf[p]), p, uf);
    if FieldOf(ParseUrlChar(s, buf[p])) == Some(uf) {
      PartNext(buf, f, last, p, uf);
    } else {
      assert PartOf(connect, buf[..p], uf) + [] == PartOf(connect, buf[..p], uf);
    }
  }

  lemma FieldsNextAt(f: Fields, last: Option<Field>, s': UrlState, p: nat, uf: Field)
    requires last.Some? ==> last.value in f
    ensures var g := FieldsNext(f, last, s', p);
      if FieldOf(s') == Some(uf) then g == Note(f, last, p, uf) else SameField(f, g, uf)
  {
    hide FieldOf, Bump;
  }

  lemma UrlFails(buf: seq<byte>, connect: bool, p: nat, f: Fields, s: UrlState, at: bool)
    requires p < |buf| && InBuffer(f, p) && UrlTraced(buf, connect, p, f, s, at) && ParseUrlChar(s, buf[p]).UrlDead?
    ensures UrlAfter(connect, buf).UrlDead?
  {
    hide ParseUrlChar, UrlAfter, Marked, HasAt, PartOf;
    UrlOneMore(buf, connect, p);
    DeadUrlStays(connect, buf, p + 1);
  }

  // The outcome of the scan that a caller sees.
  ghost predicate UrlRead(buf: seq<byte>, connect: bool, f: Fields, at: bool)
    requires InBuffer(f, |buf|)
  {
    && f.Keys == Marked(connect, buf) && (at <==> HasAt(connect, buf))
    && (|buf| < U16 ==> forall uf: Field :: PartOf(connect, buf, uf) == if uf in f then buf[f[uf].off..f[uf].End()] else [])
  }

  lemma UrlTracedLast(buf: seq<byte>, connect: bool, f: Fields, s: UrlState, at: bool)
    requires InBuffer(f, |buf|) && UrlTraced(buf, connect, |buf|, f, s, at)
    ensures s == UrlAfter(connect, buf) && UrlRead(buf, connect, f, at)
  {
    assert buf[..|buf|] == buf;
  }

  // What the host loop knows in front of byte p; the text of the port if no offset wraps.
  ghost predicate HostTraced(buf: seq<byte>, a: nat, p: nat, f: Fields, s: HostState, at: bool)
    requires a <= p <= |buf| && InBuffer(f, |buf|)
  {
    && s == HostAfter(at, buf[a..p]) && (FPort in f <==> s.Port?) && (FUserinfo in f <==> HasUserinfo(at, buf[a..p]))
    && (|buf| < U16 ==> HostTexts(buf, buf[a..p], f, at))
  }

  predicate InAuthority(uf: Field) { uf == FHost || uf == FPort || uf == FUserinfo }

  predicate HostTexts(buf: seq<byte>, auth: seq<byte>, f: Fields, at: bool)
    requires InBuffer(f, |buf|)
  {
    forall uf: Field | InAuthority(uf) :: HostPart(at, auth, uf) == if uf in f then buf[f[uf].off..f[uf].End()] else []
  }

  lemma HostTracedFirst(buf: seq<byte>, a: nat, f: Fields, at: bool)
    requires a <= |buf| && InBuffer(f, |buf|) && FPort !in f && FUserinfo !in f && FHost in f && f[FHost].len == 0
    ensures HostTraced(buf, a, a, f, HostBegin(at), at)
  {
    assert buf[a..a] == [];
  }

  lemma HostOneMore(buf: seq<byte>, a: nat, p: nat, at: bool)
    requires a <= p < |buf|
    ensures var x, y := buf[a..p], buf[a..p + 1];
      && HostAfter(at, y) == ParseHostChar(HostAfter(at, x), buf[p])
      && (HasUserinfo(at, y) <==> HasUserinfo(at, x) || HostAfter(at, y).Userinfo?)
      && forall uf: Field ::
           HostPart(at, y, uf) == HostPart(at, x, uf) + if HostFieldOf(HostAfter(at, y)) == Some(uf) then [buf[p]] else []
  {
    assert buf[a..p + 1][..p - a] == buf[a..p];
  }

  // The next byte of a part of the authority is its first one, or follows the others.
  predicate PartReady(f: Fields, p: nat, s: HostState, uf: Field) {
    if HostFieldOf(s) == Some(uf) then uf in f && f[uf].End() == p
    else if uf == FHost then FHost in f && f[FHost].len == 0
    else uf !in f
  }

  lemma PartIsReady(buf: seq<byte>, f: Fields, a: nat, p: nat, s: HostState)
    requires p < |buf| && HostScanned(buf, f, a, p, s) && HostUnset(f, s)
    ensures var to := HostFieldOf(ParseHostChar(s, buf[p]));
      to.Some? ==> PartReady(f, p, s, to.value) && (to == Some(FHost) ==> BeforeHost(s) || InHost(s))
  {
    hide IsUserinfoChar, IsHostChar, IsHex, IsAlpha, IsNum, HostAt, UserinfoAt;
  }

  // A part is begun or grows by one byte.
  lemma HostSpanNext(f: Fields, p: nat, s: HostState, s': HostState, uf: Field)
    requires p + 1 < U16 && FHost in f && HostFieldOf(s') == Some(uf) && PartReady(f, p, s, uf)
    requires (s'.Port? && s.Port? ==> FPort in f) && (s'.Userinfo? && s.Userinfo? ==> FUserinfo in f)
    requires PartStays(s, s')
    ensures var g := NoteHost(f, p, s, s');
      uf in g && g[uf] == if HostFieldOf(s) == Some(uf) then Span(f[uf].off, f[uf].len + 1) else Span(p, 1)
  {
    assert p % U16 == p;
    match s'
    case Host =>
    case V6 =>
    case V6ZoneStart =>
    case V6Zone =>
    case Port =>
    case Userinfo =>
    case _ =>
  }

  // The kinds of host do not mix.
  predicate PartStays(s: HostState, s': HostState) {
    && (s.V6? || s.V6ZoneStart? || s.V6Zone? ==> !s'.Host?)
    && (s.Host? ==> !s'.V6ZoneStart? && !s'.V6Zone?)
    && (s'.V6? ==> !s.Host? && !s.V6ZoneStart? && !s.V6Zone?)
    && (s'.V6ZoneStart? || s'.V6Zone? ==> s.V6? || s.V6ZoneStart? || s.V6Zone?)
  }

  lemma SpanText(buf: seq<byte>, x: Span, y: Span, p: nat, more: bool)
    requires p < |buf| && (more ==> x.End() == p) && y == if more then Span(x.off, x.len + 1) else Span(p, 1)
    ensures y.End() == p + 1
    ensures buf[y.off..p + 1] == (if more then buf[x.off..p] else []) + [buf[p]]
  {
    assert buf[y.off..p + 1] == buf[y.off..p] + [buf[p]];
  }

  lemma HostMoves(s: HostState, ch: byte)
    ensures !ParseHostChar(s, ch).HostDead? ==> PartStays(s, ParseHostChar(s, ch))
  {
    hide IsUserinfoChar, IsHostChar, IsHex, IsAlpha, IsNum;
  }

  lemma PortOrder(s: HostState, ch: byte)
    ensures var s' := ParseHostChar(s, ch);
      s' != HostDead ==> (s.Port? ==> s'.Port?) && (s'.Userinfo? ==> s.Userinfo? || s.UserinfoStart?)
  {
    hide IsUserinfoChar, IsHostChar, IsHex, IsAlpha, IsNum;
  }

  lemma NotedFields(f: Fields, p: nat, s: HostState, s': HostState)
    requires FHost in f && (s'.Port? && s.Port? ==> FPort in f) && (s'.Userinfo? && s.Userinfo? ==> FUserinfo in f)
    ensures var g := NoteHost(f, p, s, s');
      && (FPort in g <==> FPort in f || s'.Port?) && (FUserinfo in g <==> FUserinfo in f || s'.Userinfo?)
      && (forall uf :: uf in f && HostFieldOf(s') != Some(uf) ==> uf in g && g[uf] == f[uf])
      && (forall uf :: uf in g && HostFieldOf(s') != Some(uf) ==> uf in f)
  {
    hide Bump;
  }

  lemma HostTracedStep(buf: seq<byte>, f: Fields, a: nat, p: nat, s: HostState, at: bool)
    requires a <= p < |buf| && InBuffer(f, |buf|) && HostTraced(buf, a, p, f, s, at) && FHost in f
    requires s.Userinfo? ==> FUserinfo in f
    requires ParseHostChar(s, buf[p]) != HostDead
    requires InBuffer(NoteHost(f, p, s, ParseHostChar(s, buf[p])), |buf|)
    requires |buf| < U16 ==> HostScanned(buf, f, a, p, s) && HostUnset(f, s)
    ensures var s' := ParseHostChar(s, buf[p]);
      HostTraced(buf, a, p + 1, NoteHost(f, p, s, s'), s', at)
  {
    hide ParseHostChar, HostAfter, HasUserinfo, HostPart, HostScanned, HostUnset, HostTexts, NoteHost, HostFieldOf;
    HostOneMore(buf, a, p, at);
    PortOrder(s, buf[p]);
    NotedFields(f, p, s, ParseHostChar(s, buf[p]));
    if |buf| < U16 { HostTextsStep(buf, f, a, p, s, at); }
  }

  lemma HostTextsStep(buf: seq<byte>, f: Fields, a: nat, p: nat, s: HostState, at: bool)
    requires |buf| < U16 && a <= p < |buf| && InBuffer(f, |buf|) && HostTraced(buf, a, p, f, s, at) && FHost in f
    requires s.Userinfo? ==> FUserinfo in f
    requires ParseHostChar(s, buf[p]) != HostDead && HostScanned(buf, f, a, p, s) && HostUnset(f, s)
    requires InBuffer(NoteHost(f, p, s, ParseHostChar(s, buf[p])), |buf|)
    ensures HostTexts(buf, buf[a..p + 1], NoteHost(f, p, s, ParseHostChar(s, buf[p])), at)
  {
    hide ParseHostChar, HostAfter, HasUserinfo, HostPart, HostScanned, HostUnset, NoteHost, HostFieldOf;
    var g := NoteHost(f, p, s, ParseHostChar(s, buf[p]));
    forall uf: Field | InAuthority(uf)
      ensures HostPart(at, buf[a..p + 1], uf) == if uf in g then buf[g[uf].off..g[uf].End()] else []
    {
      HostTextStep(buf, f, a, p, s, at, uf);
    }
  }

  lemma HostTextStep(buf: seq<byte>, f: Fields, a: nat, p: nat, s: HostState, at: bool, uf: Field)
    requires |buf| < U16 && a <= p < |buf| && InBuffer(f, |buf|) && HostTraced(buf, a, p, f, s, at) && FHost in f
    requires (s.Userinfo? ==> FUserinfo in f) && InAuthority(uf)
    requires ParseHostChar(s, buf[p]) != HostDead && HostScanned(buf, f, a, p, s) && HostUnset(f, s)
    requires InBuffer(NoteHost(f, p, s, ParseHostChar(s, buf[p])), |buf|)
    ensures var g := NoteHost(f, p, s, ParseHostChar(s, buf[p]));
      HostPart(at, buf[a..p + 1], uf) == if uf in g then buf[g[uf].off..g[uf].End()] else []
  {
    hide ParseHostChar, HostAfter, HasUserinfo, HostPart, HostScanned, HostUnset, NoteHost, HostFieldOf;
    var s' := ParseHostChar(s, buf[p]);
    HostOneMore(buf, a, p, at);
    if HostFieldOf(s') == Some(uf) {
      HostTextGrows(buf, f, a, p, s, uf);
    } else {
      NotedFields(f, p, s, s');
      assert HostPart(at, buf[a..p], uf) + [] == HostPart(at, buf[a..p], uf);
    }
  }

  // The byte joins the text of its part.
  lemma HostTextGrows(buf: seq<byte>, f: Fields, a: nat, p: nat, s: HostState, uf: Field)
    requires |buf| < U16 && a <= p < |buf| && InBuffer(f, |buf|) && FHost in f
    requires (s.Userinfo? ==> FUserinfo in f) && (s.Port? ==> FPort in f) && InAuthority(uf)
    requires ParseHostChar(s, buf[p]) != HostDead && HostScanned(buf, f, a, p, s) && HostUnset(f, s)
    requires InBuffer(NoteHost(f, p, s, ParseHostChar(s, buf[p])), |buf|)
    requires HostFieldOf(ParseHostChar(s, buf[p])) == Some(uf)
    ensures var g := NoteHost(f, p, s, ParseHostChar(s, buf[p]));
      uf in g && buf[g[uf].off..g[uf].End()] == (if uf in f then buf[f[uf].off..f[uf].End()] else []) + [buf[p]]
  {
    hide ParseHostChar, HostScanned, HostUnset, NoteHost, HostFieldOf;
    var s' := ParseHostChar(s, buf[p]);
    var g := NoteHost(f, p, s, s');
    PartIsReady(buf, f, a, p, s);
    HostMoves(s, buf[p]);
    HostSpanNext(f, p, s, s', uf);
    var more := HostFieldOf(s) == Some(uf);
    SpanText(buf, if uf in f then f[uf] else Span(p, 0), g[uf], p, more);
    if !more && uf in f { assert buf[f[uf].off..f[uf].End()] == []; }
  }

  // The outcome of the host loop that a caller sees.
  ghost predicate HostRead(buf: seq<byte>, auth: seq<byte>, f: Fields, at: bool)
    requires InBuffer(f, |buf|)
  {
    && (FPort in f <==> HostAfter(at, auth).Port?) && (FUserinfo in f <==> HasUserinfo(at, auth))
    && (|buf| < U16 ==> HostTexts(buf, auth, f, at))
  }

  lemma HostTracedLast(buf: seq<byte>, a: nat, e: nat, f: Fields, s: HostState, at: bool)
    requires a <= e <= |buf| && InBuffer(f, |buf|) && HostTraced(buf, a, e, f, s, at)
    ensures s == HostAfter(at, buf[a..e]) && HostRead(buf, buf[a..e], f, at)
  {
    hide HostAfter, HasUserinfo, HostPart;
  }

  // The loop of http_parse_host in front of byte p, with `before` as it was called.
  ghost predicate HostGoing(buf: seq<byte>, before: Fields, f: Fields, a: nat, p: nat, s: HostState, at: bool) {
    && a <= p <= |buf| && s != HostDead && HostBounds(f, p, s)
    && InBuffer(before, |buf|) && InBuffer(f, |buf|) && OnlyAuthority(before, f)
    && (|buf| < U16 ==> HostScanned(buf, f, a, p, s))
    && HostTraced(buf, a, p, f, s, at)
  }

  lemma HostStarts(buf: seq<byte>, before: Fields, at: bool)
    requires FHost in before && FPort !in before && FUserinfo !in before && InBuffer(before, |buf|)
    ensures var a := before[FHost].off;
      HostGoing(buf, before, before[FHost := Span(a, 0)], a, a, HostBegin(at), at)
  {
    hide HostScanned, HostTraced, HostUnset;
    var a := before[FHost].off;
    var f := before[FHost := Span(a, 0)];
    HostBegins(buf, f, a, HostBegin(at));
    HostTracedFirst(buf, a, f, at);
  }

  lemma HostGoesOn(buf: seq<byte>, before: Fields, f: Fields, a: nat, p: nat, e: nat, s: HostState, at: bool)
    requires HostGoing(buf, before, f, a, p, s, at) && p < e <= |buf|
    ensures FHost in f && (s.Port? ==> FPort in f) && (s.Userinfo? ==> FUserinfo in f) && InBuffer(f, |buf|)
    ensures var s' := ParseHostChar(s, buf[p]);
      if s' == HostDead then
        && HostAfter(at, buf[a..e]).HostDead? && FHost in f && OnlyAuthority(before, f)
      else HostGoing(buf, before, NoteHost(f, p, s, s'), a, p + 1, s', at)
  {
    hide ParseHostChar, HostScanned, HostTraced, HostUnset, NoteHost, HostAfter, HostOrder;
    var s' := ParseHostChar(s, buf[p]);
    if s' == HostDead {
      HostFails(buf, a, p, e, f, s, at);
    } else {
      HostOrderOfChar(s, buf[p]);
      HostBoundsStep(f, p, s, s');
      KeptInside(before, f, NoteHost(f, p, s, s'), p + 1, s', |buf|);
      if |buf| < U16 { HostStep(buf, f, a, p, s); }
      HostTracedStep(buf, f, a, p, s, at);
    }
  }

  lemma KeptInside(before: Fields, f: Fields, g: Fields, p: nat, s: HostState, n: nat)
    requires InBuffer(before, n) && OnlyAuthority(before, f) && OnlyAuthority(f, g) && HostBounds(g, p, s) && p <= n
    ensures InBuffer(g, n) && OnlyAuthority(before, g)
  {
  }

  lemma HostFails(buf: seq<byte>, a: nat, p: nat, e: nat, f: Fields, s: HostState, at: bool)
    requires a <= p < e <= |buf| && InBuffer(f, |buf|) && HostTraced(buf, a, p, f, s, at)
    requires ParseHostChar(s, buf[p]).HostDead?
    ensures HostAfter(at, buf[a..e]).HostDead?
  {
    hide ParseHostChar, HostAfter, HasUserinfo, HostPart;
    HostOneMore(buf, a, p, at);
    assert buf[a..e][..p + 1 - a] == buf[a..p + 1];
    DeadHostStays(at, buf[a..e], p + 1 - a);
  }

  // The last checks of http_parser_parse_url decide what Accepts asks for.
  lemma LastChecks(buf: seq<byte>, connect: bool, scanned: Fields, f: Fields, at: bool)
    requires |buf| < U16 && InBuffer(scanned, |buf|) && InBuffer(f, |buf|) && !UrlAfter(connect, buf).UrlDead?
    requires UrlRead(buf, connect, scanned, at) && FHost in scanned && FPort !in scanned && FUserinfo !in scanned
    requires forall uf :: uf in f <==> uf in scanned || (uf == FPort && FPort in f) || (uf == FUserinfo && FUserinfo in f)
    requires var auth := buf[scanned[FHost].off..scanned[FHost].End()];
      HostRead(buf, auth, f, at) && HostEndsWell(HostAfter(at, auth))
    ensures AllNum(buf, f)
    ensures Accepts(connect, buf) <==>
      && (connect ==> f.Keys == {FHost, FPort})
      && (FPort in f ==> NumOf(buf[f[FPort].off..f[FPort].End()]) <= 0xffff)
  {
    hide UrlAfter, Marked, HasAt, PartOf, HostAfter, HasUserinfo, HostPart;
    assert NumOf([]) == 0;
    if connect {
      if f.Keys == {FHost, FPort} {
        assert FPort in f && FUserinfo !in f;
        assert scanned.Keys == {FHost};
      }
      if scanned.Keys == {FHost} && FPort in f && FUserinfo !in f { assert f.Keys == {FHost, FPort}; }
    }
  }

  lemma AllTexts(buf: seq<byte>, connect: bool, scanned: Fields, f: Fields, at: bool)
    requires |buf| < U16 && InBuffer(scanned, |buf|) && InBuffer(f, |buf|)
    requires UrlRead(buf, connect, scanned, at) && FHost in scanned
    requires forall uf :: !InAuthority(uf) ==> (uf in f <==> uf in scanned) && (uf in f ==> f[uf] == scanned[uf])
    requires HostRead(buf, buf[scanned[FHost].off..scanned[FHost].End()], f, at)
    ensures Texts(buf, connect, f)
  {
    hide UrlAfter, Marked, HasAt, PartOf, HostAfter, HasUserinfo, HostPart;
  }

  lemma NoHostTexts(buf: seq<byte>, connect: bool, f: Fields, at: bool)
    requires |buf| < U16 && InBuffer(f, |buf|) && UrlRead(buf, connect, f, at)
    requires FHost !in f && FPort !in f && FUserinfo !in f
    ensures Texts(buf, connect, f)
  {
    hide UrlAfter, Marked, HasAt, PartOf, HostAfter, HasUserinfo;
  }

  // The checks in front of it; without an authority only CONNECT is refused.
  lemma FirstChecks(buf: seq<byte>, connect: bool, scanned: Fields, at: bool)
    requires |buf| < U16 && InBuffer(scanned, |buf|) && UrlRead(buf, connect, scanned, at) && !UrlAfter(connect, buf).UrlDead?
    ensures FSchema in scanned && FHost !in scanned ==> !Accepts(connect, buf)
    ensures FSchema !in scanned && FHost !in scanned ==> (Accepts(connect, buf) <==> !connect)
    ensures FHost in scanned && !HostEndsWell(HostAfter(at, buf[scanned[FHost].off..scanned[FHost].End()])) ==>
      !Accepts(connect, buf)
  {
    hide UrlAfter, Marked, HasAt, PartOf, HostAfter, HasUserinfo, HostPart;
  }

  lemma DeadRejects(buf: seq<byte>, connect: bool)
    requires UrlAfter(connect, buf).UrlDead?
    ensures !Accepts(connect, buf)
  {
  }

  predicate AllNum(buf: seq<byte>, f: Fields)
    requires InBuffer(f, |buf|)
  {
    FPort in f ==> forall b <- buf[f[FPort].off..f[FPort].End()] :: IsNum(b)
  }

  class HttpParserUrl {
    var fields: Fields
    var port: nat

    constructor ()
    {
      fields := map[];
      port := 0;
    }

    // http_parse_host
    method ParseHost(buf: seq<byte>, foundAt: bool) returns (rc: int)
      requires FHost in fields && FPort !in fields && FUserinfo !in fields && InBuffer(fields, |buf|)
      modifies this`fields
      ensures rc == 0 || rc == 1
      ensures InBuffer(fields, |buf|) && FHost in fields
      ensures forall uf :: uf in fields ==> uf in old(fields) || uf == FPort || uf == FUserinfo
      ensures forall uf :: uf in old(fields) && uf != FHost ==> uf in fields && fields[uf] == old(fields)[uf]
      ensures rc == 0 && |buf| < U16 ==> AuthoritySplit(buf, fields, old(fields[FHost].off), old(fields[FHost].End()))
      ensures var auth := buf[old(fields[FHost].off)..old(fields[FHost].End())];
        && (rc == 0 <==> HostEndsWell(HostAfter(foundAt, auth)))
        && (rc == 0 ==> HostRead(buf, auth, fields, foundAt))
    {
      hide ParseHostChar, AuthoritySplit, HostAfter, HostRead, HostGoing, NoteHost;
      ghost var before := fields;
      var a, e := fields[FHost].off, fields[FHost].End();
      fields := fields[FHost := Span(a, 0)];
      var s := HostBegin(foundAt);
      HostStarts(buf, before, foundAt);
      var p := a;
      while p < e
        invariant a <= p <= e && s != HostDead
        invariant HostGoing(buf, before, fields, a, p, s, foundAt)
      {
        var s' := ParseHostChar(s, buf[p]);
        HostGoesOn(buf, before, fields, a, p, e, s, foundAt);
        if s' == HostDead { return 1; }
        fields := NoteHost(fields, p, s, s');
        s := s';
        p := p + 1;
      }
      HostDone(buf, before, fields, a, e, s, foundAt);
      if s.HostStart? || s.V6Start? || s.V6? || s.V6ZoneStart? || s.V6Zone? || s.PortStart? || s.Userinfo? || s.UserinfoStart? {
        return 1;
      }
      return 0;
    }

    // The scan of http_parser_parse_url; `foundAt` tells whether the authority has an '@'.
    method Scan(buf: seq<byte>, isConnect: bool)
      returns (dead: bool, foundAt: bool, ghost auth: Span, ghost hash: nat)
      requires fields == map[]
      modifies this`fields
      ensures InBuffer(fields, |buf|) && FPort !in fields && FUserinfo !in fields
      ensures dead <==> UrlAfter(isConnect, buf).UrlDead?
      ensures !dead ==> UrlRead(buf, isConnect, fields, foundAt)
      ensures !dead && |buf| < U16 && (FSchema in fields ==> FHost in fields) ==>
        WholeUrl(buf, fields, isConnect, auth, hash) && (FHost in fields ==> fields[FHost] == auth)
    {
      hide ParseUrlChar, ScannedOk, WholeUrl, AuthNext, HashNext, InBuffer, Note, UrlTraced, UrlRead, FieldReady, UrlAfter;
      NothingNoted(0);
      var s := if isConnect then ServerStart else SpacesBeforeUrl;
      var last: Option<Field> := None;
      dead, foundAt, auth, hash := false, false, Span(0, 0), 0;
      ScanBegins(buf, isConnect, s);
      UrlTracedFirst(buf, isConnect);
      var p := 0;
      while p < |buf|
        invariant 0 <= p <= |buf|
        invariant last.Some? ==> last.value in fields
        invariant InBuffer(fields, p) && FPort !in fields && FUserinfo !in fields
        invariant |buf| < U16 ==> ScannedOk(buf, fields, isConnect, auth, hash, p, s, last)
        invariant UrlTraced(buf, isConnect, p, fields, s, foundAt) && s != UrlDead
      {
        var s' := ParseUrlChar(s, buf[p]);
        if s' == UrlDead {
          UrlFails(buf, isConnect, p, fields, s, foundAt);
          InBufferGrows(fields, p, |buf|);
          return true, foundAt, auth, hash;
        }
        if |buf| < U16 { ScanStep(buf, fields, isConnect, auth, hash, p, s, last); }
        ghost var before, lastBefore, at := fields, last, foundAt;
        FieldIsReady(buf, fields, isConnect, auth, hash, p, s, last);
        if s' == ServerWithAt { foundAt := true; }
        auth, hash := AuthNext(auth, s, s', p), HashNext(hash, s, s', p);
        match FieldOf(s') {
          case None => InBufferGrows(fields, p, p + 1);
          case Some(uf) =>
            NoteInside(fields, last, p, uf);
            fields := Note(fields, last, p, uf);
            last := Some(uf);
        }
        UrlTracedStep(buf, before, isConnect, p, s, lastBefore, at);
        s := s';
        p := p + 1;
      }
      UrlTracedLast(buf, isConnect, fields, s, foundAt);
      if |buf| < U16 && (FSchema in fields ==> FHost in fields) {
        ScanDone(buf, fields, isConnect, auth, hash, s, last);
      }
    }

    // http_parser_parse_url
    method ParseUrl(buf: seq<byte>, isConnect: bool) returns (rc: int)
      modifies this
      ensures rc == 0 || rc == 1
      ensures rc == 0 ==> InBuffer(fields, |buf|)
      ensures rc == 0 && |buf| < U16 ==> exists auth, hash: nat :: UrlSplit(buf, fields, isConnect, auth, hash)
      ensures rc == 0 && |buf| < U16 && FPort in fields ==>
        AllDigits(buf, fields[FPort]) && port == NumOf(buf[fields[FPort].off..fields[FPort].End()]) <= 0xffff
      ensures rc == 0 && FPort !in fields ==> port == 0
      ensures |buf| < U16 ==> (rc == 0 <==> Accepts(isConnect, buf))
      ensures rc == 0 && |buf| < U16 ==> Texts(buf, isConnect, fields)
    {
      hide WholeUrl, AuthoritySplit, AllDigits, NumOf, DigitRun, UrlAfter, HostAfter, UrlRead, HostRead, Accepts, HostEndsWell, Texts, TextOf;
      port, fields := 0, map[];
      var dead, foundAt, auth, hash := Scan(buf, isConnect);
      if dead { DeadRejects(buf, isConnect); } else if |buf| < U16 { FirstChecks(buf, isConnect, fields, foundAt); }
      if dead || (FSchema in fields && FHost !in fields) {
        return 1;
      }
      if FHost in fields {
        ghost var scanned := fields;
        var bad := ParseHost(buf, foundAt);
        if bad != 0 { return 1; }
        if |buf| < U16 {
          WholeUrlKept(buf, scanned, fields, isConnect, auth, hash);
          AuthorityStops(buf, fields, isConnect, auth, hash);
          LastChecks(buf, isConnect, scanned, fields, foundAt);
          AllTexts(buf, isConnect, scanned, fields, foundAt);
        }
      } else if |buf| < U16 {
        NoHostTexts(buf, isConnect, fields, foundAt);
      }
      if isConnect && fields.Keys != {FHost, FPort} {
        return 1;
      }
      if FPort in fields {
        var digits := DigitRun(buf, fields[FPort].off);
        if |buf| < U16 { PortRead(buf, fields, auth.off, auth.End()); }
        var v := NumOf(digits);
        if v > 0xffff { return 1; }
        port := v;
      }
      assert |buf| < U16 ==> UrlSplit(buf, fields, isConnect, auth, hash);
      return 0;
    }
  }

  lemma PortRead(buf: seq<byte>, f: Fields, a: nat, e: nat)
    requires AuthoritySplit(buf, f, a, e) && FPort in f && e <= |buf| && (e < |buf| ==> !IsNum(buf[e]))
    ensures AllDigits(buf, f[FPort])
    ensures DigitRun(buf, f[FPort].off) == buf[f[FPort].off..f[FPort].End()]
  {
    hide HostEnds;
    DigitRunIs(buf, f[FPort], 0);
  }

  // The spans recorded so far lie in front of byte p, whatever the 16-bit fields lost.
  predicate HostBounds(f: Fields, p: nat, s: HostState) {
    && FHost in f && f[FHost].End() <= p
    && (FPort in f ==> f[FPort].End() <= p) && (FUserinfo in f ==> f[FUserinfo].End() <= p)
    && (s.Port? ==> FPort in f) && (s.Userinfo? ==> FUserinfo in f)
    && HostUnset(f, s)
  }

  // Host bytes are entered from the start states only, and those are never entered again.
  predicate HostOrder(s: HostState, s': HostState) {
    && ((s'.Host? || s'.V6?) && s' != s ==> s.HostStart? || s.V6Start?)
    && (s'.V6ZoneStart? || s'.V6Zone? ==> !BeforeHost(s))
    && (BeforeHost(s') ==> BeforeHost(s))
    && (s'.Userinfo? ==> s.Userinfo? || s.UserinfoStart?)
  }

  lemma HostOrderOfChar(s: HostState, ch: byte)
    ensures HostOrder(s, ParseHostChar(s, ch))
  {
    hide IsUserinfoChar, IsHostChar, IsHex, IsAlpha, IsNum;
  }

  // Only the host, the port and the user part differ, and no other field is set.
  predicate OnlyAuthority(f: Fields, f': Fields) {
    && (forall uf :: uf in f' ==> uf in f || uf == FPort || uf == FUserinfo)
    && (forall uf :: uf in f && uf != FHost && uf != FPort && uf != FUserinfo ==> uf in f' && f'[uf] == f[uf])
  }

  // A span that lies in front of p, or begins at p and is empty, lies in front of p + 1 one byte longer.
  lemma BumpEnd(span: Span, p: nat)
    requires span.End() <= p || span == Span(p % U16, 0)
    ensures Bump(span).End() <= p + 1
  {
  }

  lemma FirstEnd(p: nat)
    ensures Span(p % U16, 1).End() <= p + 1
  {
  }

  lemma BoundsInHost(f: Fields, p: nat, s: HostState, s': HostState)
    requires HostBounds(f, p, s) && HostOrder(s, s') && (InHost(s'))
    ensures HostBounds(NoteHost(f, p, s, s'), p + 1, s') && OnlyAuthority(f, NoteHost(f, p, s, s'))
  {
    BumpEnd(f[FHost], p);
    BumpEnd(Span(p % U16, 0), p);
    hide Bump;
  }

  lemma BoundsInPort(f: Fields, p: nat, s: HostState, s': HostState)
    requires HostBounds(f, p, s) && HostOrder(s, s') && (s'.Port?)
    ensures HostBounds(NoteHost(f, p, s, s'), p + 1, s') && OnlyAuthority(f, NoteHost(f, p, s, s'))
  {
    BumpEnd(if s != Port then Span(p % U16, 0) else f[FPort], p);
    hide Bump;
  }

  lemma BoundsInUser(f: Fields, p: nat, s: HostState, s': HostState)
    requires HostBounds(f, p, s) && HostOrder(s, s') && (s'.Userinfo?)
    ensures HostBounds(NoteHost(f, p, s, s'), p + 1, s') && OnlyAuthority(f, NoteHost(f, p, s, s'))
  {
    BumpEnd(if s != Userinfo then Span(p % U16, 0) else f[FUserinfo], p);
    hide Bump;
  }

  lemma BoundsElsewhere(f: Fields, p: nat, s: HostState, s': HostState)
    requires HostBounds(f, p, s) && HostOrder(s, s') && (!InHost(s') && !s'.Port? && !s'.Userinfo?)
    ensures HostBounds(NoteHost(f, p, s, s'), p + 1, s') && OnlyAuthority(f, NoteHost(f, p, s, s'))
  {
  }

  lemma HostBoundsStep(f: Fields, p: nat, s: HostState, s': HostState)
    requires HostBounds(f, p, s) && HostOrder(s, s')
    ensures HostBounds(NoteHost(f, p, s, s'), p + 1, s') && OnlyAuthority(f, NoteHost(f, p, s, s'))
  {
    if InHost(s') { BoundsInHost(f, p, s, s'); }
    else if s'.Port? { BoundsInPort(f, p, s, s'); }
    else if s'.Userinfo? { BoundsInUser(f, p, s, s'); }
    else { BoundsElsewhere(f, p, s, s'); }
    hide NoteHost, HostOrder, OnlyAuthority;
  }

  lemma HostDone(buf: seq<byte>, before: Fields, f: Fields, a: nat, e: nat, s: HostState, at: bool)
    requires HostGoing(buf, before, f, a, e, s, at)
    ensures InBuffer(f, |buf|) && FHost in f && OnlyAuthority(before, f)
    ensures s == HostAfter(at, buf[a..e]) && HostRead(buf, buf[a..e], f, at)
    ensures HostEndsWell(s) && |buf| < U16 ==> AuthoritySplit(buf, f, a, e)
  {
    hide HostAt, HostTraced, HostRead, HostAfter;
    HostTracedLast(buf, a, e, f, s, at);
  }

  lemma HostBegins(buf: seq<byte>, f: Fields, a: nat, s: HostState)
    requires s.UserinfoStart? || s.HostStart?
    requires a <= |buf| && FHost in f && FPort !in f && FUserinfo !in f && f[FHost].len == 0
    ensures HostScanned(buf, f, a, a, s) && HostUnset(f, s)
  {
  }

  // ---------------------------------------------------------------- what a caller gets

  function Rank(uf: Field): nat {
    match uf
    case FSchema => 0
    case FUserinfo => 1
    case FHost => 2
    case FPort => 3
    case FPath => 4
    case FQuery => 5
    case FFragment => 6
  }

  predicate IsDelimiter(c: byte) {
    c == ':' as int || c == '/' as int || c == '@' as int || c == '[' as int || c == ']' as int
    || c == '?' as int || c == '#' as int
  }

  predicate InField(f: Fields, i: nat) {
    exists uf :: uf in f && f[uf].off <= i < f[uf].End()
  }

  // Every byte in front of `to` is in a field or is a delimiter.
  predicate Accounted(buf: seq<byte>, f: Fields, from: nat, to: nat) {
    to <= |buf| && forall i: nat :: from <= i < to ==> InField(f, i) || IsDelimiter(buf[i])
  }

  predicate Placed(f: Fields, uf: Field, from: nat, to: nat) {
    uf in f ==> f[uf].len > 0 && from <= f[uf].off && f[uf].End() <= to
  }

  lemma AuthorityInOrder(buf: seq<byte>, f: Fields, a: nat, e: nat)
    requires AuthoritySplit(buf, f, a, e) && a < e <= |buf|
    ensures Placed(f, FUserinfo, a, e) && Placed(f, FHost, a, e) && Placed(f, FPort, a, e)
    ensures FHost in f
    ensures FUserinfo in f ==> f[FUserinfo].End() <= f[FHost].off
    ensures FPort in f ==> f[FHost].End() <= f[FPort].off
    ensures Accounted(buf, f, a, e)
  {
  }

  ghost predicate OrderedUpTo(buf: seq<byte>, f: Fields, rank: nat, k: nat) {
    && (forall uf :: Rank(uf) <= rank ==> Placed(f, uf, 0, k))
    && (forall x, y :: x in f && y in f && Rank(x) < Rank(y) <= rank ==> f[x].End() <= f[y].off)
    && Accounted(buf, f, 0, k)
  }

  // The authority's own condition; without an authority there is neither port nor userinfo.
  predicate HostOk(buf: seq<byte>, f: Fields, auth: Span) {
    if FHost in f then AuthoritySplit(buf, f, auth.off, auth.End()) else FPort !in f && FUserinfo !in f
  }

  // One more field behind what is ordered already, with delimiters between.
  lemma NextField(buf: seq<byte>, f: Fields, k: nat, uf: Field, to: nat)
    requires Rank(uf) > 0 && OrderedUpTo(buf, f, Rank(uf) - 1, k) && k <= to <= |buf|
    requires forall i :: k <= i < (if uf in f then f[uf].off else to) ==> i < |buf| && IsDelimiter(buf[i])
    requires uf in f ==> f[uf].len > 0 && k <= f[uf].off && f[uf].End() == to
    ensures OrderedUpTo(buf, f, Rank(uf), to)
  {
    hide IsDelimiter;
    forall g | Rank(g) <= Rank(uf) ensures Placed(f, g, 0, to) {
      if g != uf { assert Placed(f, g, 0, k); }
    }
    forall x, y | x in f && y in f && Rank(x) < Rank(y) <= Rank(uf) ensures f[x].End() <= f[y].off {
      if y == uf { assert Placed(f, x, 0, k); }
    }
    forall i: nat | 0 <= i < to ensures InField(f, i) || IsDelimiter(buf[i]) {
      if uf in f && i >= f[uf].off { assert f[uf].off <= i < f[uf].End(); }
    }
  }

  lemma SchemaInOrder(buf: seq<byte>, f: Fields, connect: bool, k: nat)
    requires k <= |buf| && (AuthorityAt(buf, f, connect, k) || (k == 0 && FSchema !in f))
    ensures OrderedUpTo(buf, f, 0, k)
  {
    forall i: nat | 0 <= i < k ensures InField(f, i) || IsDelimiter(buf[i]) {
      if i < f[FSchema].End() { assert f[FSchema].off <= i < f[FSchema].End(); }
    }
  }

  lemma FrontInOrder(buf: seq<byte>, f: Fields, connect: bool, auth: Span, k: nat)
    requires FrontEnds(buf, f, connect, auth, k) && k <= |buf| && HostOk(buf, f, auth)
    ensures OrderedUpTo(buf, f, 3, k)
  {
    hide OrderedUpTo;
    var a := if FHost in f then auth.off else k;
    SchemaInOrder(buf, f, connect, a);
    hide AuthorityAt;
    var u := if FUserinfo in f then f[FUserinfo].End() else a;
    NextField(buf, f, a, FUserinfo, u);
    var h := if FHost in f then f[FHost].End() else k;
    NextField(buf, f, u, FHost, h);
    NextField(buf, f, h, FPort, k);
  }

  lemma PathInOrder(buf: seq<byte>, f: Fields, connect: bool, auth: Span, k: nat)
    requires PathEnds(buf, f, connect, auth, k) && k <= |buf| && HostOk(buf, f, auth)
    ensures OrderedUpTo(buf, f, 4, k)
  {
    hide FrontEnds, HostOk, OrderedUpTo;
    var from := if FPath in f then f[FPath].off else k;
    FrontInOrder(buf, f, connect, auth, from);
    NextField(buf, f, from, FPath, k);
  }

  lemma QueryInOrder(buf: seq<byte>, f: Fields, connect: bool, auth: Span, k: nat)
    requires QueryEnds(buf, f, connect, auth, k) && k <= |buf| && HostOk(buf, f, auth)
    ensures OrderedUpTo(buf, f, 5, k)
  {
    hide PathEnds, HostOk, OrderedUpTo;
    var from := if FQuery in f then f[FQuery].off - 1
                else if FPath in f && PathEnds(buf, f, connect, auth, k) then k else k - 1;
    PathInOrder(buf, f, connect, auth, from);
    NextField(buf, f, from, FQuery, k);
  }

  // An accepted URL: all recorded fields are non-empty, lie inside the buffer, are disjoint and
  // come in the order scheme, userinfo, host, port, path, query, fragment; userinfo, host and port
  // lie in the authority; and no byte is lost, for what is in no field is a delimiter.
  lemma SplitInOrder(buf: seq<byte>, f: Fields, connect: bool, auth: Span, hash: nat)
    requires UrlSplit(buf, f, connect, auth, hash)
    ensures OrderedUpTo(buf, f, 6, |buf|)
    ensures FHost in f ==>
      && Placed(f, FUserinfo, auth.off, auth.End())
      && Placed(f, FHost, auth.off, auth.End())
      && Placed(f, FPort, auth.off, auth.End())
  {
    hide QueryEnds, PathEnds, AuthoritySplit, OrderedUpTo;
    if FHost in f {
      AuthorityStops(buf, f, connect, auth, hash);
      AuthorityInOrder(buf, f, auth.off, auth.End());
    }
    var n := |buf|;
    if FFragment in f || Hashes(buf, f, connect, auth, hash, n) {
      QueryInOrder(buf, f, connect, auth, hash);
      NextField(buf, f, hash, FFragment, n);
    } else {
      if QueryEnds(buf, f, connect, auth, n) {
        QueryInOrder(buf, f, connect, auth, n);
      } else {
        PathInOrder(buf, f, connect, auth, n);
        NextField(buf, f, n, FQuery, n);
      }
      NextField(buf, f, n, FFragment, n);
    }
  }
}
