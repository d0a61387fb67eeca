/** Parsing ADO.NET-style connection strings. */
module ConnString {
  import opened MachineInts
  import opened Wrappers

  // ----- Strings -------------------------------------------------------------------------------

  /** Unicode White_Space, which is what `trim` strips. */
  predicate IsSpace(c: char) {
    var n := c as int;
    || 0x9 <= n <= 0xD || n == 0x20 || n == 0x85 || n == 0xA0 || n == 0x1680
    || 0x2000 <= n <= 0x200A || n == 0x2028 || n == 0x2029 || n == 0x202F || n == 0x205F || n == 0x3000
  }

  function TrimEnd(s: string): (t: string)
    ensures t <= s
  {
    if s != [] && IsSpace(s[|s| - 1]) then TrimEnd(s[..|s| - 1]) else s
  }

  function TrimStart(s: string): (t: string)
    ensures |t| <= |s| && forall c :: c in t ==> c in s
  {
    if s != [] && IsSpace(s[0]) then TrimStart(s[1..]) else s
  }

  function Trim(s: string): (t: string)
    ensures |t| <= |s| && forall c :: c in t ==> c in s
  {
    TrimStart(TrimEnd(s))
  }

  /** Position of the first `c`, or the length if there is none. */
  function IndexOf(s: string, c: char): (i: nat)
    ensures i <= |s| && c !in s[..i] && (i < |s| ==> s[i] == c)
  {
    if s == [] || s[0] == c then 0 else 1 + IndexOf(s[1..], c)
  }

  function LastIndexOf(s: string, c: char): Option<nat> {
    if s == [] then None
    else if s[|s| - 1] == c then Some(|s| - 1)
    else LastIndexOf(s[..|s| - 1], c)
  }

  function Split(s: string, c: char): (parts: seq<string>)
    ensures forall part :: part in parts ==> c !in part && forall x :: x in part ==> x in s
    decreases |s|
  {
    var i := IndexOf(s, c);
    if i == |s| then [s[..i]] else [s[..i]] + Split(s[i + 1..], c)
  }

  function Join(parts: seq<string>, c: char): string {
    if parts == [] then [] else if |parts| == 1 then parts[0] else parts[0] + [c] + Join(parts[1..], c)
  }

  function SplitOnce(s: string, c: char): Option<(string, string)> {
    var i := IndexOf(s, c);
    if i == |s| then None else Some((s[..i], s[i + 1..]))
  }

  function RSplitOnce(s: string, c: char): (r: Option<(string, string)>)
    ensures r.Some? ==> forall x :: x in r.value.0 || x in r.value.1 ==> x in s
  {
    LastIndexBound(s, c);
    match LastIndexOf(s, c)
    case None => None
    case Some(i) => Some((s[..i], s[i + 1..]))
  }

  lemma LastIndexBound(s: string, c: char)
    ensures LastIndexOf(s, c).Some? ==> LastIndexOf(s, c).value < |s|
  {
  }

  /** ASCII lower case.  The few other characters whose lower case is ASCII occur in no keyword. */
  function Lower(s: string): string {
    seq(|s|, i requires 0 <= i < |s| => LowerChar(s[i]))
  }

  function LowerChar(c: char): char {
    if 'A' <= c <= 'Z' then c - 'A' + 'a' else c
  }

  function RemoveSpaces(s: string): string {
    if s == [] then []
    else if s[0] == ' ' then RemoveSpaces(s[1..])
    else [s[0]] + RemoveSpaces(s[1..])
  }

  /** `trim_start_matches("tcp:")` strips the prefix as often as it occurs. */
  function StripTcp(s: string): (t: string)
    ensures |t| <= |s| && (forall c :: c in t ==> c in s)
    ensures "tcp:" <= s ==> |t| < |s|
  {
    if "tcp:" <= s then StripTcp(s[4..]) else s
  }

  function Digits(s: string): Option<nat> {
    if s == [] then Some(0)
    else
      var c, init := s[|s| - 1], Digits(s[..|s| - 1]);
      if init.Some? && '0' <= c <= '9' then Some(init.value * 10 + (c as int - '0' as int)) else None
  }

  /** `str::parse::<u16>`: an optional plus sign, then at least one digit, in range. */
  function ParseU16(s: string): Option<uint16> {
    var digits := if s != [] && s[0] == '+' then s[1..] else s;
    var value := Digits(digits);
    if digits != [] && value.Some? && value.value < 0x1_0000 then Some(value.value as uint16) else None
  }

  function Decimal(n: nat): (s: string)
    ensures s != [] && forall c :: c in s ==> '0' <= c <= '9'
  {
    if n < 10 then [n as char + '0'] else Decimal(n / 10) + [(n % 10) as char + '0']
  }

  // ----- Segments ------------------------------------------------------------------------------

  datatype Config = Config(
    host: string,
    port: uint16,
    database: string,
    username: string,
    password: string,
    trustCert: bool,
    encrypt: bool)

  const DEFAULT: Config := Config("localhost", 1433, "", "", "", false, true)

  datatype Setting =
    | Server(host: string, port: Option<uint16>)
    | Database(database: string)
    | Username(username: string)
    | Password(password: string)
    | TrustCert(trustCert: bool)
    | Encrypt(encrypt: bool)
    | Unrecognised

  function Assign(c: Config, s: Setting): Config {
    match s
    case Server(host, port) => if port.Some? then c.(host := host, port := port.value) else c.(host := host)
    case Database(v) => c.(database := v)
    case Username(v) => c.(username := v)
    case Password(v) => c.(password := v)
    case TrustCert(b) => c.(trustCert := b)
    case Encrypt(b) => c.(encrypt := b)
    case Unrecognised => c
  }

  function ServerSetting(value: string): Setting {
    var s := StripTcp(value);
    match RSplitOnce(s, ',')
    case Some((h, p)) =>
      Server(Trim(h), Some(match ParseU16(Trim(p)) case Some(n) => n case None => 1433))
    case None => Server(s, None)
  }

  datatype Key = ServerKey | DatabaseKey | UserKey | PasswordKey | TrustKey | EncryptKey | OtherKey

  /** The keyword table. */
  function KeyOf(keyword: string): Key {
    match keyword
    case "server" => ServerKey
    case "datasource" => ServerKey
    case "database" => DatabaseKey
    case "initialcatalog" => DatabaseKey
    case "userid" => UserKey
    case "uid" => UserKey
    case "user" => UserKey
    case "password" => PasswordKey
    case "pwd" => PasswordKey
    case "trustservercertificate" => TrustKey
    case "encrypt" => EncryptKey
    case _ => OtherKey
  }

  /** What a keyword with a (trimmed) value sets. */
  function Interpret(key: Key, value: string): Setting {
    match key
    case ServerKey => ServerSetting(value)
    case DatabaseKey => Database(value)
    case UserKey => Username(value)
    case PasswordKey => Password(value)
    case TrustKey => TrustCert(EqualsIgnoringCase(value, "true"))
    case EncryptKey => Encrypt(!EqualsIgnoringCase(value, "false"))
    case OtherKey => Unrecognised
  }

  predicate EqualsIgnoringCase(s: string, lower: string) {
    Lower(s) == lower
  }

  function ReadKey(key: string): Key {
    KeyOf(RemoveSpaces(Lower(Trim(key))))
  }

  /** One segment; blank segments set nothing, and one without `=` is an error. */
  function ReadSegment(raw: string): Result<Setting, string> {
    var part := Trim(raw);
    if part == [] then Ok(Unrecognised)
    else
      match SplitOnce(part, '=')
      case None => Err(part)
      case Some((key, value)) => Ok(Interpret(ReadKey(key), Trim(value)))
  }

  function ParseSegments(segments: seq<string>, c: Config): Result<Config, string> {
    if segments == [] then Ok(c)
    else
      match ReadSegment(segments[0])
      case Err(part) => Err(part)
      case Ok(setting) => ParseSegments(segments[1..], Assign(c, setting))
  }

  function Parse(s: string): Result<Config, string> {
    ParseSegments(Split(s, ';'), DEFAULT)
  }

  lemma NextSegment(segments: seq<string>, i: nat, c: Config)
    requires i < |segments|
    ensures var first := ReadSegment(segments[i]);
            ParseSegments(segments[i..], c)
            == if first.Err? then Err(first.error) else ParseSegments(segments[i + 1..], Assign(c, first.value))
  {
    assert segments[i..][0] == segments[i] && segments[i..][1..] == segments[i + 1..];
  }

  /** The arms of the match: what one keyword does to the fields read so far. */
  method Apply(before: Config, keyword: Key, val: string) returns (after: Config)
    ensures after == Assign(before, Interpret(keyword, Trim(val)))
  {
    match keyword {
      case ServerKey =>
        var s := StripTcp(Trim(val));
        var hostPort := RSplitOnce(s, ',');
        if hostPort.Some? {
          var (h, p) := hostPort.value;
          var port := ParseU16(Trim(p));
          return before.(host := Trim(h), port := if port.Some? then port.value else 1433);
        }
        return before.(host := s);
      case DatabaseKey => return before.(database := Trim(val));
      case UserKey => return before.(username := Trim(val));
      case PasswordKey => return before.(password := Trim(val));
      case TrustKey => return before.(trustCert := EqualsIgnoringCase(Trim(val), "true"));
      case EncryptKey => return before.(encrypt := !EqualsIgnoringCase(Trim(val), "false"));
      case OtherKey => return before;
    }
  }

  /** `parse_mssql_conn_str`. */
  method ParseMssqlConnStr(connStr: string) returns (r: Result<Config, string>)
    ensures r == Parse(connStr)
  {
    var config := DEFAULT;
    var segments := Split(connStr, ';');
    assert segments[0..] == segments;
    for i := 0 to |segments|
      invariant Parse(connStr) == ParseSegments(segments[i..], config)
    {
      NextSegment(segments, i, config);
      var part := Trim(segments[i]);
      if part == [] {
        continue;
      }
      var pair := SplitOnce(part, '=');
      if pair.None? {
        return Err(part);
      }
      var (key, val) := pair.value;
      config := Apply(config, ReadKey(key), val);
    }
    return Ok(config);
  }

  // ----- Order of segments ---------------------------------------------------------------------

  predicate WellFormed(segments: seq<string>) {
    forall s :: s in segments ==> ReadSegment(s).Ok?
  }

  /** What the segments set, unrecognised and blank ones left out. */
  function Settings(segments: seq<string>): seq<Setting>
    requires WellFormed(segments)
  {
    if segments == [] then []
    else
      var first := ReadSegment(segments[0]).value;
      (if first.Unrecognised? then [] else [first]) + Settings(segments[1..])
  }

  function AssignAll(c: Config, settings: seq<Setting>): Config
    decreases |settings|
  {
    if settings == [] then c else AssignAll(Assign(c, settings[0]), settings[1..])
  }

  lemma AssignFirst(c: Config, first: Setting, rest: seq<Setting>)
    ensures AssignAll(c, (if first.Unrecognised? then [] else [first]) + rest) == AssignAll(Assign(c, first), rest)
  {
    assert [] + rest == rest && ([first] + rest)[1..] == rest;
  }

  lemma WellFormedFirst(segments: seq<string>)
    requires segments != []
    ensures WellFormed(segments) <==> ReadSegment(segments[0]).Ok? && WellFormed(segments[1..])
  {
  }

  /** A connection string is accepted just when every segment is blank or has an `=`. */
  lemma {:induction false} ParseIsAssignAll(segments: seq<string>, c: Config)
    ensures ParseSegments(segments, c).Ok? <==> WellFormed(segments)
    ensures WellFormed(segments) ==> ParseSegments(segments, c) == Ok(AssignAll(c, Settings(segments)))
  {
    if segments != [] {
      WellFormedFirst(segments);
      if ReadSegment(segments[0]).Ok? {
        var first := ReadSegment(segments[0]).value;
        ParseIsAssignAll(segments[1..], Assign(c, first));
        if WellFormed(segments) {
          AssignFirst(c, first, Settings(segments[1..]));
        }
      }
    }
  }

  /** The field a setting belongs to. */
  function Field(s: Setting): nat {
    match s
    case Server(_, _) => 0
    case Database(_) => 1
    case Username(_) => 2
    case Password(_) => 3
    case TrustCert(_) => 4
    case Encrypt(_) => 5
    case Unrecognised => 6
  }

  ghost predicate DistinctFields(settings: seq<Setting>) {
    forall i, j :: 0 <= i < j < |settings| ==> Field(settings[i]) != Field(settings[j])
  }

  lemma AssignCommutes(c: Config, s: Setting, t: Setting)
    requires Field(s) != Field(t)
    ensures Assign(Assign(c, s), t) == Assign(Assign(c, t), s)
  {
  }

  lemma {:induction false} AssignEarlier(c: Config, before: seq<Setting>, s: Setting, after: seq<Setting>)
    requires forall t :: t in before ==> Field(t) != Field(s)
    ensures AssignAll(c, before + [s] + after) == AssignAll(Assign(c, s), before + after)
    decreases |before|
  {
    if before == [] {
      assert before + [s] + after == [s] + after && ([s] + after)[1..] == after && before + after == after;
    } else {
      var b, rest := before[0], before[1..];
      assert (before + [s] + after)[1..] == rest + [s] + after && (before + after)[1..] == rest + after;
      AssignEarlier(Assign(c, b), rest, s, after);
      AssignCommutes(c, b, s);
    }
  }

  lemma TakeOut(b: seq<Setting>, k: nat)
    requires k < |b|
    ensures b == b[..k] + [b[k]] + b[k + 1..]
    ensures multiset(b[..k] + b[k + 1..]) == multiset(b) - multiset{b[k]}
  {
  }

  lemma TakeOutDistinct(b: seq<Setting>, k: nat)
    requires k < |b| && DistinctFields(b)
    ensures DistinctFields(b[..k] + b[k + 1..])
    ensures forall t :: t in b[..k] ==> Field(t) != Field(b[k])
  {
  }

  lemma TakeFirst(a: seq<Setting>)
    requires a != []
    ensures multiset(a[1..]) == multiset(a) - multiset{a[0]}
  {
    assert a == [a[0]] + a[1..];
  }

  lemma {:induction false} AssignPermuted(c: Config, a: seq<Setting>, b: seq<Setting>)
    requires multiset(a) == multiset(b) && DistinctFields(b)
    ensures AssignAll(c, a) == AssignAll(c, b)
    decreases |a|
  {
    if a == [] {
      assert |b| == |multiset(b)| == 0;
    } else {
      var s := a[0];
      assert s in multiset(b);
      var k :| 0 <= k < |b| && b[k] == s;
      TakeOut(b, k);
      TakeOutDistinct(b, k);
      TakeFirst(a);
      AssignPermuted(Assign(c, s), a[1..], b[..k] + b[k + 1..]);
      AssignEarlier(c, b[..k], s, b[k + 1..]);
    }
  }

  lemma {:induction false} SplitJoin(parts: seq<string>, c: char)
    requires parts != [] && forall p :: p in parts ==> c !in p
    ensures Split(Join(parts, c), c) == parts
    decreases |parts|
  {
    var s := Join(parts, c);
    if |parts| == 1 {
      assert s == parts[0] && parts[0] in parts;
      NoSeparator(s, c);
      assert s[..|s|] == s && [parts[0]] == parts;
    } else {
      var p, rest := parts[0], Join(parts[1..], c);
      FirstSeparator(p, rest, c);
      SplitJoin(parts[1..], c);
      assert s == p + [c] + rest && s[..|p|] == p && s[|p| + 1..] == rest;
    }
  }

  lemma NoSeparator(s: string, c: char)
    requires c !in s
    ensures IndexOf(s, c) == |s|
  {
  }

  lemma {:induction false} FirstSeparator(p: string, rest: string, c: char)
    requires c !in p
    ensures IndexOf(p + [c] + rest, c) == |p|
  {
    if p != [] {
      FirstSeparator(p[1..], rest, c);
      assert (p + [c] + rest)[1..] == p[1..] + [c] + rest;
    }
  }

  /** Segments may come in any order, with blank ones and unrecognised keywords anywhere between them, as
      long as no field is set twice. */
  lemma SegmentOrderIrrelevant(a: seq<string>, b: seq<string>)
    requires a != [] && b != [] && WellFormed(a) && WellFormed(b)
    requires forall s :: s in a || s in b ==> ';' !in s
    requires multiset(Settings(a)) == multiset(Settings(b)) && DistinctFields(Settings(b))
    ensures Parse(Join(a, ';')) == Parse(Join(b, ';'))
  {
    SplitJoin(a, ';');
    SplitJoin(b, ';');
    ParseIsAssignAll(a, DEFAULT);
    ParseIsAssignAll(b, DEFAULT);
    AssignPermuted(DEFAULT, Settings(a), Settings(b));
  }

  // ----- Rendering and parsing back ------------------------------------------------------------

  function Flag(b: bool): string {
    if b then "True" else "False"
  }

  function ServerValue(host: string, port: uint16): string {
    "tcp:" + (host + "," + Decimal(port as nat))
  }

  function Assignment(keyword: string, value: string): string {
    keyword + "=" + value
  }

  function CanonicalSegments(c: Config): seq<string> {
    [Assignment("Server", ServerValue(c.host, c.port))]
    + [Assignment("Database", c.database)]
    + [Assignment("User Id", c.username)]
    + [Assignment("Password", c.password)]
    + [Assignment("TrustServerCertificate", Flag(c.trustCert))]
    + [Assignment("Encrypt", Flag(c.encrypt))]
  }

  function Render(c: Config): string {
    Join(CanonicalSegments(c), ';')
  }

  predicate NoSeparators(c: Config) {
    ';' !in c.host && ';' !in c.database && ';' !in c.username && ';' !in c.password
  }

  predicate Trimmed(c: Config) {
    && Trim(c.host) == c.host && Trim(c.database) == c.database
    && Trim(c.username) == c.username && Trim(c.password) == c.password
  }

  lemma {:induction false} TrimEndAppend(a: string, v: string)
    requires a != [] && !IsSpace(a[|a| - 1])
    ensures TrimEnd(a + v) == a + TrimEnd(v)
  {
    if v == [] {
      assert a + v == a;
    } else {
      TrimEndAppend(a, v[..|v| - 1]);
      assert (a + v)[..|a + v| - 1] == a + v[..|v| - 1];
    }
  }

  lemma {:induction false} TrimEndTwice(s: string)
    ensures TrimEnd(TrimEnd(s)) == TrimEnd(s)
  {
    if s != [] && IsSpace(s[|s| - 1]) {
      TrimEndTwice(s[..|s| - 1]);
    }
  }

  lemma ReadAssignment(key: string, value: string)
    requires key != [] && '=' !in key && !IsSpace(key[0]) && !IsSpace(key[|key| - 1])
    ensures ReadSegment(Assignment(key, value)) == Ok(Interpret(KeyOf(RemoveSpaces(Lower(key))), Trim(value)))
  {
    var raw := key + "=" + value;
    TrimEndAppend(key + "=", value);
    var part := key + "=" + TrimEnd(value);
    assert raw == (key + "=") + value && Trim(raw) == part;
    FirstSeparator(key, TrimEnd(value), '=');
    assert part[..|key|] == key && part[|key| + 1..] == TrimEnd(value);
    TrimEndTwice(value);
    assert Trim(key) == key;
  }

  lemma {:induction false} NoSpacesToRemove(s: string)
    requires ' ' !in s
    ensures RemoveSpaces(s) == s
  {
    if s != [] {
      NoSpacesToRemove(s[1..]);
    }
  }

  lemma PlainKeyword(key: string, lower: string)
    requires |key| == |lower| && ' ' !in lower
    requires forall i :: 0 <= i < |key| ==> LowerChar(key[i]) == lower[i]
    ensures RemoveSpaces(Lower(key)) == lower
  {
    assert Lower(key) == lower;
    NoSpacesToRemove(lower);
  }

  lemma UserIdKeyword()
    ensures RemoveSpaces(Lower("User Id")) == "userid"
  {
    var s := Lower("User Id");
    assert s == "user id";
    assert RemoveSpaces(s[7..]) == "";
    assert s[6..] == "d" && RemoveSpaces(s[6..]) == "d";
    assert s[5..] == "id" && s[5..][1..] == s[6..] && RemoveSpaces(s[5..]) == "id";
    assert s[4..][1..] == s[5..] && RemoveSpaces(s[4..]) == "id";
    assert s[3..][1..] == s[4..] && RemoveSpaces(s[3..]) == "rid";
    assert s[2..][1..] == s[3..] && RemoveSpaces(s[2..]) == "erid";
    assert s[1..][1..] == s[2..] && RemoveSpaces(s[1..]) == "serid";
  }

  lemma ServerWord()
    ensures KeyOf(RemoveSpaces(Lower("Server"))) == ServerKey
  {
    PlainKeyword("Server", "server");
  }

  lemma DatabaseWord()
    ensures KeyOf(RemoveSpaces(Lower("Database"))) == DatabaseKey
  {
    PlainKeyword("Database", "database");
  }

  lemma PasswordWord()
    ensures KeyOf(RemoveSpaces(Lower("Password"))) == PasswordKey
  {
    PlainKeyword("Password", "password");
  }

  lemma TrustWord()
    ensures KeyOf(RemoveSpaces(Lower("TrustServerCertificate"))) == TrustKey
  {
    PlainKeyword("TrustServerCertificate", "trustservercertificate");
  }

  lemma EncryptWord()
    ensures KeyOf(RemoveSpaces(Lower("Encrypt"))) == EncryptKey
  {
    PlainKeyword("Encrypt", "encrypt");
  }

  lemma UserWord()
    ensures KeyOf(RemoveSpaces(Lower("User Id"))) == UserKey
  {
    UserIdKeyword();
  }

  lemma {:induction false} DigitsOfDecimal(n: nat)
    ensures Digits(Decimal(n)) == Some(n)
  {
    var s := Decimal(n);
    if n < 10 {
      assert s[..0] == [] && Digits(s[..0]) == Some(0);
    } else {
      DigitsOfDecimal(n / 10);
      assert s[..|s| - 1] == Decimal(n / 10);
    }
  }

  lemma TcpBeforeComma(host: string, tail: string)
    ensures "tcp:" <= host + "," + tail <==> "tcp:" <= host
  {
    var s, tcp := host + "," + tail, "tcp:";
    if |host| < 4 {
      assert s[|host|] == ',';
      assert tcp[|host|] != ',';
    } else {
      assert s[..4] == host[..4];
    }
  }

  lemma {:induction false} StripTcpBeforeComma(host: string, tail: string)
    ensures StripTcp(host + "," + tail) == StripTcp(host) + "," + tail
  {
    TcpBeforeComma(host, tail);
    if "tcp:" <= host {
      StripTcpBeforeComma(host[4..], tail);
      assert (host + "," + tail)[4..] == host[4..] + "," + tail;
    }
  }

  lemma {:induction false} LastSeparator(x: string, p: string, c: char)
    requires c !in p
    ensures LastIndexOf(x + [c] + p, c) == Some(|x|)
  {
    var s := x + [c] + p;
    if p == [] {
      assert s[|s| - 1] == c;
    } else {
      assert s[|s| - 1] == p[|p| - 1] && s[..|s| - 1] == x + [c] + p[..|p| - 1];
      LastSeparator(x, p[..|p| - 1], c);
    }
  }

  lemma NoSpaceNoTrim(s: string)
    requires s != [] ==> !IsSpace(s[0]) && !IsSpace(s[|s| - 1])
    ensures Trim(s) == s
  {
  }

  lemma DecimalPlain(n: nat)
    ensures Trim(Decimal(n)) == Decimal(n) && ',' !in Decimal(n) && ';' !in Decimal(n)
    ensures !IsSpace(Decimal(n)[|Decimal(n)| - 1])
  {
    var p := Decimal(n);
    assert p[0] in p && p[|p| - 1] in p;
  }

  lemma PortOfDecimal(port: uint16)
    ensures ParseU16(Decimal(port as nat)) == Some(port)
  {
    var p := Decimal(port as nat);
    assert p[0] in p;
    DigitsOfDecimal(port as nat);
  }

  lemma StripServer(host: string, tail: string)
    ensures StripTcp("tcp:" + (host + "," + tail)) == StripTcp(host) + "," + tail
  {
    var value := "tcp:" + (host + "," + tail);
    assert "tcp:" <= value && value[4..] == host + "," + tail;
    StripTcpBeforeComma(host, tail);
  }

  lemma SplitHostPort(x: string, p: string)
    requires ',' !in p
    ensures RSplitOnce(x + "," + p, ',') == Some((x, p))
  {
    LastSeparator(x, p, ',');
    var s := x + "," + p;
    assert s[..|x|] == x && s[|x| + 1..] == p;
  }

  lemma ReadServer(host: string, port: uint16)
    ensures Trim(ServerValue(host, port)) == ServerValue(host, port)
    ensures ServerSetting(ServerValue(host, port)) == Server(Trim(StripTcp(host)), Some(port))
  {
    var p, value := Decimal(port as nat), ServerValue(host, port);
    DecimalPlain(port as nat);
    assert value[0] == 't' && value[|value| - 1] == p[|p| - 1];
    NoSpaceNoTrim(value);
    StripServer(host, p);
    SplitHostPort(StripTcp(host), p);
    PortOfDecimal(port);
  }

  lemma ReadFlag(b: bool)
    ensures Trim(Flag(b)) == Flag(b)
    ensures EqualsIgnoringCase(Flag(b), "true") == b && !EqualsIgnoringCase(Flag(b), "false") == b
  {
    NoSpaceNoTrim(Flag(b));
    assert Lower("True") == "true" && Lower("False") == "false";
    assert |"true"| != |"false"|;
  }

  /** What parsing makes of a rendered configuration. */
  function Normalised(c: Config): Config {
    c.(host := Trim(StripTcp(c.host)), database := Trim(c.database),
       username := Trim(c.username), password := Trim(c.password))
  }

  ghost predicate ReadAs(segments: seq<string>, settings: seq<Setting>) {
    |segments| == |settings| && forall i :: 0 <= i < |segments| ==> ReadSegment(segments[i]) == Ok(settings[i])
  }

  lemma ReadOneMore(segments: seq<string>, settings: seq<Setting>, segment: string, setting: Setting)
    requires ReadAs(segments, settings) && ReadSegment(segment) == Ok(setting)
    ensures ReadAs(segments + [segment], settings + [setting])
  {
  }

  lemma ReadServerFirst(host: string, port: uint16)
    ensures ReadAs([Assignment("Server", ServerValue(host, port))], [Server(Trim(StripTcp(host)), Some(port))])
  {
    ServerWord();
    ReadServer(host, port);
    ReadAssignment("Server", ServerValue(host, port));
  }

  lemma ReadDatabaseNext(segments: seq<string>, settings: seq<Setting>, v: string)
    requires ReadAs(segments, settings)
    ensures ReadAs(segments + [Assignment("Database", v)], settings + [Database(Trim(v))])
  {
    DatabaseWord();
    ReadAssignment("Database", v);
    ReadOneMore(segments, settings, Assignment("Database", v), Database(Trim(v)));
  }

  lemma ReadUserNext(segments: seq<string>, settings: seq<Setting>, v: string)
    requires ReadAs(segments, settings)
    ensures ReadAs(segments + [Assignment("User Id", v)], settings + [Username(Trim(v))])
  {
    UserWord();
    ReadAssignment("User Id", v);
    ReadOneMore(segments, settings, Assignment("User Id", v), Username(Trim(v)));
  }

  lemma ReadPasswordNext(segments: seq<string>, settings: seq<Setting>, v: string)
    requires ReadAs(segments, settings)
    ensures ReadAs(segments + [Assignment("Password", v)], settings + [Password(Trim(v))])
  {
    PasswordWord();
    ReadAssignment("Password", v);
    ReadOneMore(segments, settings, Assignment("Password", v), Password(Trim(v)));
  }

  lemma ReadTrustNext(segments: seq<string>, settings: seq<Setting>, b: bool)
    requires ReadAs(segments, settings)
    ensures ReadAs(segments + [Assignment("TrustServerCertificate", Flag(b))], settings + [TrustCert(b)])
  {
    TrustWord();
    ReadFlag(b);
    ReadAssignment("TrustServerCertificate", Flag(b));
    ReadOneMore(segments, settings, Assignment("TrustServerCertificate", Flag(b)), TrustCert(b));
  }

  lemma ReadEncryptNext(segments: seq<string>, settings: seq<Setting>, b: bool)
    requires ReadAs(segments, settings)
    ensures ReadAs(segments + [Assignment("Encrypt", Flag(b))], settings + [Encrypt(b)])
  {
    EncryptWord();
    ReadFlag(b);
    ReadAssignment("Encrypt", Flag(b));
    ReadOneMore(segments, settings, Assignment("Encrypt", Flag(b)), Encrypt(b));
  }

  function CanonicalSettings(c: Config): seq<Setting> {
    [Server(Trim(StripTcp(c.host)), Some(c.port))]
    + [Database(Trim(c.database))]
    + [Username(Trim(c.username))]
    + [Password(Trim(c.password))]
    + [TrustCert(c.trustCert)]
    + [Encrypt(c.encrypt)]
  }

  lemma {:induction false} ParseReadAs(segments: seq<string>, settings: seq<Setting>, c: Config)
    requires ReadAs(segments, settings)
    ensures ParseSegments(segments, c) == Ok(AssignAll(c, settings))
  {
    if segments != [] {
      assert ReadSegment(segments[0]) == Ok(settings[0]);
      ParseReadAs(segments[1..], settings[1..], Assign(c, settings[0]));
    }
  }

  lemma AssignCanonical(c: Config)
    ensures AssignAll(DEFAULT, CanonicalSettings(c)) == Normalised(c)
  {
    var s := CanonicalSettings(c);
    var c1 := Assign(DEFAULT, s[0]);
    var c2 := Assign(c1, s[1]);
    var c3 := Assign(c2, s[2]);
    var c4 := Assign(c3, s[3]);
    var c5 := Assign(c4, s[4]);
    var c6 := Assign(c5, s[5]);
    assert AssignAll(c6, s[6..]) == c6;
    assert s[5..][1..] == s[6..] && AssignAll(c5, s[5..]) == c6;
    assert s[4..][1..] == s[5..] && AssignAll(c4, s[4..]) == c6;
    assert s[3..][1..] == s[4..] && AssignAll(c3, s[3..]) == c6;
    assert s[2..][1..] == s[3..] && AssignAll(c2, s[2..]) == c6;
    assert s[1..][1..] == s[2..] && AssignAll(c1, s[1..]) == c6;
  }

  lemma CanonicalRead(c: Config)
    ensures ReadAs(CanonicalSegments(c), CanonicalSettings(c))
  {
    var segments, settings := [Assignment("Server", ServerValue(c.host, c.port))], [CanonicalSettings(c)[0]];
    ReadServerFirst(c.host, c.port);
    ReadDatabaseNext(segments, settings, c.database);
    segments, settings := segments + [Assignment("Database", c.database)], settings + [Database(Trim(c.database))];
    ReadUserNext(segments, settings, c.username);
    segments, settings := segments + [Assignment("User Id", c.username)], settings + [Username(Trim(c.username))];
    ReadPasswordNext(segments, settings, c.password);
    segments, settings := segments + [Assignment("Password", c.password)], settings + [Password(Trim(c.password))];
    ReadTrustNext(segments, settings, c.trustCert);
    segments := segments + [Assignment("TrustServerCertificate", Flag(c.trustCert))];
    ReadEncryptNext(segments, settings + [TrustCert(c.trustCert)], c.encrypt);
  }

  lemma ParseJoined(segments: seq<string>, settings: seq<Setting>)
    requires segments != [] && ReadAs(segments, settings) && forall s :: s in segments ==> ';' !in s
    ensures Parse(Join(segments, ';')) == Ok(AssignAll(DEFAULT, settings))
  {
    SplitJoin(segments, ';');
    ParseReadAs(segments, settings, DEFAULT);
  }

  /** Parsing undoes rendering up to outer white space and a `tcp:` in front of the host; an `=` inside a
      value, a password for instance, does not matter. */
  lemma ParseRendered(c: Config)
    requires NoSeparators(c)
    ensures Parse(Render(c)) == Ok(Normalised(c))
  {
    CanonicalRead(c);
    SegmentsHaveNoSeparators(c);
    ParseJoined(CanonicalSegments(c), CanonicalSettings(c));
    AssignCanonical(c);
  }

  lemma SegmentsHaveNoSeparators(c: Config)
    requires NoSeparators(c)
    ensures forall s :: s in CanonicalSegments(c) ==> ';' !in s
  {
    var segments := CanonicalSegments(c);
    forall i | 0 <= i < 6
      ensures ';' !in segments[i]
    {
      match i
      case 0 => PortHasNoSeparator(c.host, c.port);
      case 1 =>
      case 2 =>
      case 3 =>
      case 4 => FlagHasNoSeparator(c.trustCert);
      case _ => FlagHasNoSeparator(c.encrypt);
    }
  }

  lemma PortHasNoSeparator(host: string, port: uint16)
    requires ';' !in host
    ensures ';' !in ServerValue(host, port)
  {
  }

  lemma FlagHasNoSeparator(b: bool)
    ensures ';' !in Flag(b)
  {
  }

  lemma CanonicalFieldsDistinct(c: Config)
    ensures DistinctFields(CanonicalSettings(c))
  {
    var settings := CanonicalSettings(c);
    assert forall i :: 0 <= i < |settings| ==> Field(settings[i]) == i;
  }

  lemma ParseSettings(segments: seq<string>, settings: seq<Setting>)
    requires segments != [] && WellFormed(segments) && forall s :: s in segments ==> ';' !in s
    requires multiset(Settings(segments)) == multiset(settings) && DistinctFields(settings)
    ensures Parse(Join(segments, ';')) == Ok(AssignAll(DEFAULT, settings))
  {
    SplitJoin(segments, ';');
    ParseIsAssignAll(segments, DEFAULT);
    AssignPermuted(DEFAULT, Settings(segments), settings);
  }

  lemma SomeSegment(segments: seq<string>, settings: seq<Setting>)
    requires settings != [] && WellFormed(segments) && multiset(Settings(segments)) == multiset(settings)
    ensures segments != []
  {
    assert settings[0] in multiset(settings);
  }

  /** The same for any string that sets those six fields in any order, through any of the accepted keywords,
      with blank segments and unrecognised keywords anywhere in between. */
  lemma AnyOrderParses(segments: seq<string>, c: Config)
    requires WellFormed(segments) && forall s :: s in segments ==> ';' !in s
    requires multiset(Settings(segments)) == multiset(CanonicalSettings(c))
    ensures Parse(Join(segments, ';')) == Ok(Normalised(c))
  {
    SomeSegment(segments, CanonicalSettings(c));
    CanonicalFieldsDistinct(c);
    ParseSettings(segments, CanonicalSettings(c));
    AssignCanonical(c);
  }

  lemma ServerKeepsNoSeparators(value: string, c: Config)
    requires ';' !in value && NoSeparators(c)
    ensures NoSeparators(Assign(c, ServerSetting(value)))
  {
    var s := StripTcp(value);
    var pair := RSplitOnce(s, ',');
    if pair.Some? {
      assert ';' !in Trim(pair.value.0);
    }
  }

  lemma InterpretKeepsNoSeparators(key: Key, value: string, c: Config)
    requires ';' !in value && NoSeparators(c)
    ensures NoSeparators(Assign(c, Interpret(key, value)))
  {
    if key == ServerKey {
      ServerKeepsNoSeparators(value, c);
    }
  }

  lemma ReadKeepsNoSeparators(raw: string, c: Config)
    requires ';' !in raw && NoSeparators(c) && ReadSegment(raw).Ok?
    ensures NoSeparators(Assign(c, ReadSegment(raw).value))
  {
    var part := Trim(raw);
    if part != [] {
      var (key, value) := SplitOnce(part, '=').value;
      assert forall x :: x in value ==> x in part;
      InterpretKeepsNoSeparators(ReadKey(key), Trim(value), c);
    }
  }

  lemma {:induction false} ParsedHasNoSeparators(segments: seq<string>, c: Config)
    requires (forall s :: s in segments ==> ';' !in s) && NoSeparators(c)
    ensures ParseSegments(segments, c).Ok? ==> NoSeparators(ParseSegments(segments, c).value)
  {
    if segments != [] && ReadSegment(segments[0]).Ok? {
      ReadKeepsNoSeparators(segments[0], c);
      ParsedHasNoSeparators(segments[1..], Assign(c, ReadSegment(segments[0]).value));
    }
  }

  /** Parsing gives back exactly the configuration that was rendered if and only if no field contains a
      separator or outer white space and the host does not itself start with `tcp:`. */
  lemma RoundTripIff(c: Config)
    ensures Parse(Render(c)) == Ok(c) <==> NoSeparators(c) && Trimmed(c) && !("tcp:" <= c.host)
  {
    if NoSeparators(c) {
      ParseRendered(c);
    } else {
      ParsedHasNoSeparators(Split(Render(c), ';'), DEFAULT);
    }
  }
}
