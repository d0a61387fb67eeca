/** The forms of connection string that mean the same: spellings of keywords and flags, white space, ports,
    and omitted or repeated fields, each in terms of the characters written. */
module ConnStringForms {
  import opened MachineInts
  import opened Wrappers
  import opened ConnString

  // ----- White space and letters ---------------------------------------------------------------

  ghost predicate AllSpace(s: string) {
    forall c :: c in s ==> IsSpace(c)
  }

  lemma AsciiSpace(c: char)
    requires c as int < 0x80
    ensures IsSpace(c) <==> c == ' ' || 0x9 <= c as int <= 0xD
  {
  }

  lemma {:induction false} TrimEndParts(s: string) returns (b: string)
    ensures s == TrimEnd(s) + b && AllSpace(b)
    ensures TrimEnd(s) != [] ==> !IsSpace(TrimEnd(s)[|TrimEnd(s)| - 1])
  {
    if s != [] && IsSpace(s[|s| - 1]) {
      var m := |s| - 1;
      var rest := TrimEndParts(s[..m]);
      b := rest + [s[m]];
      assert s == s[..m] + [s[m]];
    } else {
      b := [];
    }
  }

  lemma {:induction false} TrimStartParts(s: string) returns (a: string)
    ensures s == a + TrimStart(s) && AllSpace(a)
    ensures TrimStart(s) != [] ==> !IsSpace(TrimStart(s)[0]) && TrimStart(s)[|TrimStart(s)| - 1] == s[|s| - 1]
  {
    if s != [] && IsSpace(s[0]) {
      var rest := TrimStartParts(s[1..]);
      a := [s[0]] + rest;
    } else {
      a := [];
    }
  }

  /** Trimming takes white space off both ends, all there is, and nothing else. */
  lemma TrimMeaning(s: string) returns (a: string, b: string)
    ensures s == a + Trim(s) + b && AllSpace(a) && AllSpace(b)
    ensures Trim(s) != [] ==> !IsSpace(Trim(s)[0]) && !IsSpace(Trim(s)[|Trim(s)| - 1])
  {
    b := TrimEndParts(s);
    a := TrimStartParts(TrimEnd(s));
  }

  /** `c` is the letter `l`, or its capital. */
  predicate SameLetter(c: char, l: char) {
    c == l || ('a' <= l <= 'z' && c as int + 32 == l as int)
  }

  /** `k` is the word, in any case, with any number of blanks anywhere. */
  predicate Spells(k: string, word: string) {
    if k == [] then word == []
    else if k[0] == ' ' then Spells(k[1..], word)
    else word != [] && SameLetter(k[0], word[0]) && Spells(k[1..], word[1..])
  }

  ghost predicate Plain(word: string) {
    forall c :: c in word ==> 'a' <= c <= 'z'
  }

  lemma {:induction false} SpellsIff(k: string, word: string)
    requires Plain(word)
    ensures Spells(k, word) <==> RemoveSpaces(Lower(k)) == word
  {
    if k != [] {
      assert Lower(k)[0] == LowerChar(k[0]) && Lower(k)[1..] == Lower(k[1..]);
      if k[0] == ' ' {
        SpellsIff(k[1..], word);
      } else if word != [] {
        assert forall c :: c in word[1..] ==> c in word;
        SpellsIff(k[1..], word[1..]);
        assert word == [word[0]] + word[1..] && word[0] in word;
      }
    }
  }

  // ----- Keywords ------------------------------------------------------------------------------

  lemma ServerKeywords(w: string)
    ensures KeyOf(w) == ServerKey <==> w == "server" || w == "datasource"
  {
  }

  lemma DatabaseKeywords(w: string)
    ensures KeyOf(w) == DatabaseKey <==> w == "database" || w == "initialcatalog"
  {
  }

  lemma UserKeywords(w: string)
    ensures KeyOf(w) == UserKey <==> w == "userid" || w == "uid" || w == "user"
  {
  }

  lemma PasswordKeywords(w: string)
    ensures KeyOf(w) == PasswordKey <==> w == "password" || w == "pwd"
  {
  }

  lemma FlagKeywords(w: string)
    ensures KeyOf(w) == TrustKey <==> w == "trustservercertificate"
    ensures KeyOf(w) == EncryptKey <==> w == "encrypt"
  {
  }

  /** Which keywords, however spelled, set the server, and so on below. */
  lemma ServerSpellings(k: string)
    ensures ReadKey(k) == ServerKey <==> Spells(Trim(k), "server") || Spells(Trim(k), "datasource")
  {
    SpellsIff(Trim(k), "server");
    SpellsIff(Trim(k), "datasource");
    ServerKeywords(RemoveSpaces(Lower(Trim(k))));
  }

  lemma DatabaseSpellings(k: string)
    ensures ReadKey(k) == DatabaseKey <==> Spells(Trim(k), "database") || Spells(Trim(k), "initialcatalog")
  {
    SpellsIff(Trim(k), "database");
    SpellsIff(Trim(k), "initialcatalog");
    DatabaseKeywords(RemoveSpaces(Lower(Trim(k))));
  }

  lemma UserSpellings(k: string)
    ensures ReadKey(k) == UserKey
            <==> Spells(Trim(k), "userid") || Spells(Trim(k), "uid") || Spells(Trim(k), "user")
  {
    SpellsIff(Trim(k), "userid");
    SpellsIff(Trim(k), "uid");
    SpellsIff(Trim(k), "user");
    UserKeywords(RemoveSpaces(Lower(Trim(k))));
  }

  lemma PasswordSpellings(k: string)
    ensures ReadKey(k) == PasswordKey <==> Spells(Trim(k), "password") || Spells(Trim(k), "pwd")
  {
    SpellsIff(Trim(k), "password");
    SpellsIff(Trim(k), "pwd");
    PasswordKeywords(RemoveSpaces(Lower(Trim(k))));
  }

  lemma TrustSpellings(k: string)
    ensures ReadKey(k) == TrustKey <==> Spells(Trim(k), "trustservercertificate")
  {
    SpellsIff(Trim(k), "trustservercertificate");
    FlagKeywords(RemoveSpaces(Lower(Trim(k))));
  }

  lemma EncryptSpellings(k: string)
    ensures ReadKey(k) == EncryptKey <==> Spells(Trim(k), "encrypt")
  {
    SpellsIff(Trim(k), "encrypt");
    FlagKeywords(RemoveSpaces(Lower(Trim(k))));
  }

  // ----- Any keyword, any spacing --------------------------------------------------------------

  lemma {:induction false} TrimStartAppend(k: string, rest: string)
    requires rest != [] && !IsSpace(rest[0])
    ensures TrimStart(k + rest) == TrimStart(k) + rest
  {
    if k == [] {
      assert k + rest == rest;
    } else if IsSpace(k[0]) {
      assert (k + rest)[1..] == k[1..] + rest;
      TrimStartAppend(k[1..], rest);
    }
  }

  lemma {:induction false} TrimEndCons(c: char, s: string)
    ensures TrimEnd([c] + s) == if TrimEnd(s) == [] && IsSpace(c) then [] else [c] + TrimEnd(s)
  {
    var both := [c] + s;
    if s == [] {
      assert both == [c] && both[..0] == [];
    } else {
      var m := |s| - 1;
      assert both[|both| - 1] == s[m] && both[..|both| - 1] == [c] + s[..m];
      if IsSpace(s[m]) {
        TrimEndCons(c, s[..m]);
      }
    }
  }

  lemma {:induction false} TrimAfterTrimStart(k: string)
    ensures Trim(TrimStart(k)) == Trim(k)
  {
    if k != [] && IsSpace(k[0]) {
      TrimAfterTrimStart(k[1..]);
      TrimEndCons(k[0], k[1..]);
      assert k == [k[0]] + k[1..];
      if TrimEnd(k[1..]) != [] {
        assert ([k[0]] + TrimEnd(k[1..]))[1..] == TrimEnd(k[1..]);
      }
    }
  }

  /** A segment sets what its keyword says, to its trimmed value; white space around either, and an `=` in
      the value, do not matter. */
  lemma ReadAnyAssignment(k: string, value: string)
    requires '=' !in k
    ensures ReadSegment(Assignment(k, value)) == Ok(Interpret(ReadKey(k), Trim(value)))
  {
    var raw, kept := Assignment(k, value), TrimEnd(value);
    TrimEndAppend(k + "=", value);
    assert raw == (k + "=") + value;
    assert (k + "=") + kept == k + ("=" + kept);
    TrimStartAppend(k, "=" + kept);
    var part := TrimStart(k) + "=" + kept;
    assert Trim(raw) == part by {
      assert TrimStart(k) + ("=" + kept) == part;
    }
    FirstSeparator(TrimStart(k), kept, '=');
    assert part[..|TrimStart(k)|] == TrimStart(k) && part[|TrimStart(k)| + 1..] == kept;
    TrimAfterTrimStart(k);
    TrimEndTwice(value);
  }

  lemma ReadBoth(a: seq<string>, x: seq<Setting>, b: seq<string>, y: seq<Setting>)
    requires ReadAs(a, x) && ReadAs(b, y)
    ensures ReadAs(a + b, x + y)
  {
    var both, settings := a + b, x + y;
    forall i | 0 <= i < |both|
      ensures ReadSegment(both[i]) == Ok(settings[i])
    {
      assert if i < |a| then both[i] == a[i] && settings[i] == x[i]
             else both[i] == b[i - |a|] && settings[i] == y[i - |a|];
    }
  }

  lemma OneServer(k: string, host: string, port: uint16)
    requires '=' !in k && (Spells(Trim(k), "server") || Spells(Trim(k), "datasource"))
    ensures ReadAs([Assignment(k, ServerValue(host, port))], [Server(Trim(StripTcp(host)), Some(port))])
  {
    ServerSpellings(k);
    ReadServer(host, port);
    ReadAnyAssignment(k, ServerValue(host, port));
  }

  lemma OneDatabase(k: string, v: string)
    requires '=' !in k && (Spells(Trim(k), "database") || Spells(Trim(k), "initialcatalog"))
    ensures ReadAs([Assignment(k, v)], [Database(Trim(v))])
  {
    DatabaseSpellings(k);
    ReadAnyAssignment(k, v);
  }

  lemma OneUser(k: string, v: string)
    requires '=' !in k && (Spells(Trim(k), "userid") || Spells(Trim(k), "uid") || Spells(Trim(k), "user"))
    ensures ReadAs([Assignment(k, v)], [Username(Trim(v))])
  {
    UserSpellings(k);
    ReadAnyAssignment(k, v);
  }

  lemma OnePassword(k: string, v: string)
    requires '=' !in k && (Spells(Trim(k), "password") || Spells(Trim(k), "pwd"))
    ensures ReadAs([Assignment(k, v)], [Password(Trim(v))])
  {
    PasswordSpellings(k);
    ReadAnyAssignment(k, v);
  }

  lemma OneTrust(k: string, b: bool)
    requires '=' !in k && Spells(Trim(k), "trustservercertificate")
    ensures ReadAs([Assignment(k, Flag(b))], [TrustCert(b)])
  {
    TrustSpellings(k);
    ReadFlag(b);
    ReadAnyAssignment(k, Flag(b));
  }

  lemma OneEncrypt(k: string, b: bool)
    requires '=' !in k && Spells(Trim(k), "encrypt")
    ensures ReadAs([Assignment(k, Flag(b))], [Encrypt(b)])
  {
    EncryptSpellings(k);
    ReadFlag(b);
    ReadAnyAssignment(k, Flag(b));
  }

  /** The six assignments under any keywords. */
  function SpelledSegments(c: Config, k: seq<string>): seq<string>
    requires |k| == 6
  {
    [Assignment(k[0], ServerValue(c.host, c.port))]
    + [Assignment(k[1], c.database)]
    + [Assignment(k[2], c.username)]
    + [Assignment(k[3], c.password)]
    + [Assignment(k[4], Flag(c.trustCert))]
    + [Assignment(k[5], Flag(c.encrypt))]
  }

  /** The keywords are accepted ones of the six fields in order, in any case, with any blanks in them and any
      white space around. */
  ghost predicate Accepted(k: seq<string>) {
    && |k| == 6
    && (forall i :: 0 <= i < 6 ==> '=' !in k[i] && ';' !in k[i])
    && (Spells(Trim(k[0]), "server") || Spells(Trim(k[0]), "datasource"))
    && (Spells(Trim(k[1]), "database") || Spells(Trim(k[1]), "initialcatalog"))
    && (Spells(Trim(k[2]), "userid") || Spells(Trim(k[2]), "uid") || Spells(Trim(k[2]), "user"))
    && (Spells(Trim(k[3]), "password") || Spells(Trim(k[3]), "pwd"))
    && Spells(Trim(k[4]), "trustservercertificate")
    && Spells(Trim(k[5]), "encrypt")
  }

  lemma SpelledRead(c: Config, k: seq<string>)
    requires Accepted(k)
    ensures ReadAs(SpelledSegments(c, k), CanonicalSettings(c))
  {
    var segments := [Assignment(k[0], ServerValue(c.host, c.port))];
    var settings := [Server(Trim(StripTcp(c.host)), Some(c.port))];
    OneServer(k[0], c.host, c.port);
    OneDatabase(k[1], c.database);
    ReadBoth(segments, settings, [Assignment(k[1], c.database)], [Database(Trim(c.database))]);
    segments, settings := segments + [Assignment(k[1], c.database)], settings + [Database(Trim(c.database))];
    OneUser(k[2], c.username);
    ReadBoth(segments, settings, [Assignment(k[2], c.username)], [Username(Trim(c.username))]);
    segments, settings := segments + [Assignment(k[2], c.username)], settings + [Username(Trim(c.username))];
    OnePassword(k[3], c.password);
    ReadBoth(segments, settings, [Assignment(k[3], c.password)], [Password(Trim(c.password))]);
    segments, settings := segments + [Assignment(k[3], c.password)], settings + [Password(Trim(c.password))];
    OneTrust(k[4], c.trustCert);
    ReadBoth(segments, settings, [Assignment(k[4], Flag(c.trustCert))], [TrustCert(c.trustCert)]);
    segments, settings := segments + [Assignment(k[4], Flag(c.trustCert))], settings + [TrustCert(c.trustCert)];
    OneEncrypt(k[5], c.encrypt);
    ReadBoth(segments, settings, [Assignment(k[5], Flag(c.encrypt))], [Encrypt(c.encrypt)]);
  }

  lemma SpelledHaveNoSeparators(c: Config, k: seq<string>)
    requires |k| == 6 && (forall i :: 0 <= i < 6 ==> ';' !in k[i]) && NoSeparators(c)
    ensures forall s :: s in SpelledSegments(c, k) ==> ';' !in s
  {
    PortHasNoSeparator(c.host, c.port);
    FlagHasNoSeparator(c.trustCert);
    FlagHasNoSeparator(c.encrypt);
  }

  /** Whatever accepted keywords the six fields are given under, the string parses to the same
      configuration. */
  lemma ParseAnySpelling(c: Config, k: seq<string>)
    requires NoSeparators(c) && Accepted(k)
    ensures Parse(Join(SpelledSegments(c, k), ';')) == Ok(Normalised(c))
  {
    SpelledRead(c, k);
    SpelledHaveNoSeparators(c, k);
    ParseJoined(SpelledSegments(c, k), CanonicalSettings(c));
    AssignCanonical(c);
  }

  // ----- Values --------------------------------------------------------------------------------

  /** A flag is set by `true` in any case and by nothing else; encryption is turned off by `false` in any
      case and by nothing else. */
  lemma FlagMeaning(v: string)
    ensures Interpret(TrustKey, v)
            == TrustCert(|v| == 4 && SameLetter(v[0], 't') && SameLetter(v[1], 'r')
                         && SameLetter(v[2], 'u') && SameLetter(v[3], 'e'))
    ensures Interpret(EncryptKey, v)
            == Encrypt(!(|v| == 5 && SameLetter(v[0], 'f') && SameLetter(v[1], 'a') && SameLetter(v[2], 'l')
                         && SameLetter(v[3], 's') && SameLetter(v[4], 'e')))
  {
    EqualIgnoringCaseIs(v, "true");
    EqualIgnoringCaseIs(v, "false");
  }

  lemma EqualIgnoringCaseIs(v: string, word: string)
    requires Plain(word)
    ensures EqualsIgnoringCase(v, word)
            <==> |v| == |word| && forall i :: 0 <= i < |word| ==> SameLetter(v[i], word[i])
  {
    if |v| == |word| {
      forall i | 0 <= i < |word|
        ensures LowerChar(v[i]) == word[i] <==> SameLetter(v[i], word[i])
      {
        assert word[i] in word;
      }
      if forall i :: 0 <= i < |word| ==> SameLetter(v[i], word[i]) {
        assert Lower(v) == word;
      }
      if Lower(v) == word {
        assert forall i :: 0 <= i < |word| ==> Lower(v)[i] == word[i];
      }
    }
  }

  function Repeated(unit: string, k: nat): string {
    if k == 0 then [] else unit + Repeated(unit, k - 1)
  }

  /** Every leading `tcp:` is taken off, and nothing else. */
  lemma {:induction false} StripTcpMeaning(s: string) returns (k: nat)
    ensures s == Repeated("tcp:", k) + StripTcp(s) && !("tcp:" <= StripTcp(s))
  {
    if "tcp:" <= s {
      var rest := StripTcpMeaning(s[4..]);
      k := rest + 1;
      assert s == "tcp:" + s[4..];
    } else {
      k := 0;
    }
  }

  /** A server without a comma has no port of its own; otherwise the port is what follows the last comma,
      or 1433 if that is no port number. */
  lemma ServerForms(host: string, port: string)
    requires ',' !in port && !("tcp:" <= host)
    ensures ServerSetting(host + "," + port)
            == Server(Trim(host), Some(match ParseU16(Trim(port)) case Some(n) => n case None => 1433))
    ensures ',' !in host ==> ServerSetting(host) == Server(host, None)
  {
    TcpBeforeComma(host, port);
    SplitHostPort(host, port);
    if ',' !in host {
      NoLastSeparator(host, ',');
    }
  }

  lemma {:induction false} NoLastSeparator(s: string, c: char)
    requires c !in s
    ensures LastIndexOf(s, c) == None
  {
    if s != [] {
      NoLastSeparator(s[..|s| - 1], c);
    }
  }

  // ----- Port numbers --------------------------------------------------------------------------

  function Zeros(k: nat): string {
    if k == 0 then [] else Zeros(k - 1) + "0"
  }

  lemma {:induction false} ZerosThen(k: nat, n: nat) returns (j: nat)
    ensures Digits(Zeros(k) + Decimal(n)) == Some(n)
    ensures (forall c :: c in Zeros(k) ==> c == '0') && j == k
    decreases n
  {
    j := k;
    ZerosAreZero(k);
    var s := Zeros(k) + Decimal(n);
    if n < 10 {
      assert s[..|s| - 1] == Zeros(k);
    } else {
      var i := ZerosThen(k, n / 10);
      assert s[..|s| - 1] == Zeros(k) + Decimal(n / 10);
    }
  }

  lemma {:induction false} ZerosAreZero(k: nat)
    ensures Digits(Zeros(k)) == Some(0) && forall c :: c in Zeros(k) ==> c == '0'
  {
    if k > 0 {
      ZerosAreZero(k - 1);
      assert Zeros(k)[..|Zeros(k)| - 1] == Zeros(k - 1);
    }
  }

  lemma DecimalSnoc(v: nat, d: nat)
    requires v > 0 && d < 10
    ensures Decimal(v * 10 + d) == Decimal(v) + [d as char + '0']
  {
  }

  /** A string of digits is its value's decimal form behind some zeros. */
  lemma {:induction false} DigitsAreDecimal(s: string) returns (k: nat)
    requires s != [] && Digits(s).Some?
    ensures s == Zeros(k) + Decimal(Digits(s).value)
  {
    var m, last := |s| - 1, s[|s| - 1];
    assert s == s[..m] + [last];
    var d := last as int - '0' as int;
    if m == 0 {
      k := 0;
      assert s[..0] == [] && Digits(s) == Some(d);
    } else {
      k := DigitsAreDecimal(s[..m]);
      var v := Digits(s[..m]).value;
      if v == 0 {
        assert s[..m] == Zeros(k) + "0" == Zeros(k + 1);
        k := k + 1;
      } else {
        DecimalSnoc(v, d);
        assert Zeros(k) + (Decimal(v) + [last]) == s;
      }
    }
  }

  /** `s` writes the number `n`: in decimal, perhaps behind zeros and a plus sign. */
  ghost predicate Writes(s: string, n: nat) {
    exists k: nat :: s == Zeros(k) + Decimal(n) || s == "+" + (Zeros(k) + Decimal(n))
  }

  lemma WritesDigits(k: nat, n: nat)
    ensures var s := Zeros(k) + Decimal(n); Digits(s) == Some(n) && s != [] && s[0] != '+'
  {
    var j := ZerosThen(k, n);
    var s := Zeros(k) + Decimal(n);
    assert s[0] in s && forall c :: c in s ==> '0' <= c <= '9';
  }

  /** Exactly the numbers below 2^16 are port numbers. */
  lemma ParseU16Iff(s: string, n: uint16)
    ensures ParseU16(s) == Some(n) <==> Writes(s, n as nat)
  {
    if k: nat :| s == Zeros(k) + Decimal(n as nat) || s == "+" + (Zeros(k) + Decimal(n as nat)) {
      WritesDigits(k, n as nat);
      assert ("+" + (Zeros(k) + Decimal(n as nat)))[1..] == Zeros(k) + Decimal(n as nat);
    }
    if ParseU16(s) == Some(n) {
      var digits := if s[0] == '+' then s[1..] else s;
      var k := DigitsAreDecimal(digits);
      assert s[0] == '+' ==> s == "+" + digits;
    }
  }

  // ----- Acceptance ----------------------------------------------------------------------------

  lemma TrimKeepsOthers(s: string, c: char)
    requires !IsSpace(c)
    ensures c in Trim(s) <==> c in s
  {
    var a, b := TrimMeaning(s);
    assert c !in a && c !in b;
  }

  lemma {:induction false} HasSeparator(s: string, c: char)
    ensures c in s <==> IndexOf(s, c) < |s|
  {
    if s != [] && s[0] != c {
      HasSeparator(s[1..], c);
      assert s == [s[0]] + s[1..];
    }
  }

  /** A segment is accepted if it is blank or has an `=`; the error is the segment, trimmed. */
  lemma SegmentAccepted(raw: string)
    ensures ReadSegment(raw).Ok? <==> AllSpace(raw) || '=' in raw
    ensures ReadSegment(raw).Err? ==> ReadSegment(raw).error == Trim(raw)
  {
    var a, b := TrimMeaning(raw);
    TrimKeepsOthers(raw, '=');
    HasSeparator(Trim(raw), '=');
    if Trim(raw) != [] {
      assert Trim(raw)[0] in raw;
    }
  }

  /** A string is accepted exactly if each of its segments is blank or has an `=`. */
  lemma AcceptedIff(segments: seq<string>)
    requires segments != [] && forall s :: s in segments ==> ';' !in s
    ensures Parse(Join(segments, ';')).Ok? <==> forall s :: s in segments ==> AllSpace(s) || '=' in s
  {
    SplitJoin(segments, ';');
    ParseIsAssignAll(segments, DEFAULT);
    forall s | s in segments
      ensures ReadSegment(s).Ok? <==> AllSpace(s) || '=' in s
    {
      SegmentAccepted(s);
    }
  }

  /** Otherwise the error is the first offending segment, trimmed. */
  lemma {:induction false} RejectedFor(segments: seq<string>, c: Config) returns (i: nat)
    requires ParseSegments(segments, c).Err?
    ensures i < |segments| && ParseSegments(segments, c) == Err(Trim(segments[i]))
    ensures !AllSpace(segments[i]) && '=' !in segments[i]
    ensures forall j :: 0 <= j < i ==> AllSpace(segments[j]) || '=' in segments[j]
  {
    SegmentAccepted(segments[0]);
    if ReadSegment(segments[0]).Err? {
      i := 0;
    } else {
      var rest := RejectedFor(segments[1..], Assign(c, ReadSegment(segments[0]).value));
      i := rest + 1;
      assert segments[i] == segments[1..][rest];
      assert forall j :: 0 < j < i ==> segments[j] == segments[1..][j - 1];
    }
  }

  // ----- Fields given, omitted and repeated ----------------------------------------------------

  /** The configuration has the field the setting is for set to the setting's value. */
  predicate Carries(c: Config, s: Setting) {
    match s
    case Server(host, port) => c.host == host && (port.Some? ==> c.port == port.value)
    case Database(v) => c.database == v
    case Username(v) => c.username == v
    case Password(v) => c.password == v
    case TrustCert(b) => c.trustCert == b
    case Encrypt(b) => c.encrypt == b
    case Unrecognised => true
  }

  lemma {:induction false} CarriedPast(c: Config, settings: seq<Setting>, s: Setting)
    requires Carries(c, s) && forall t :: t in settings ==> Field(t) != Field(s)
    ensures Carries(AssignAll(c, settings), s)
    decreases |settings|
  {
    if settings != [] {
      assert settings[0] in settings;
      CarriedPast(Assign(c, settings[0]), settings[1..], s);
    }
  }

  /** Of several settings of one field the last holds. */
  lemma {:induction false} LastSettingHolds(c: Config, settings: seq<Setting>, i: nat)
    requires i < |settings| && forall j :: i < j < |settings| ==> Field(settings[j]) != Field(settings[i])
    ensures Carries(AssignAll(c, settings), settings[i])
    decreases i
  {
    if i == 0 {
      CarriedPast(Assign(c, settings[0]), settings[1..], settings[0]);
    } else {
      LastSettingHolds(Assign(c, settings[0]), settings[1..], i - 1);
    }
  }

  ghost predicate Unset(settings: seq<Setting>, field: nat) {
    forall s :: s in settings ==> Field(s) != field
  }

  /** The server is never set together with a port. */
  ghost predicate PortUnset(settings: seq<Setting>) {
    forall s :: s in settings && s.Server? ==> s.port == None
  }

  predicate SameField(c: Config, d: Config, field: nat) {
    match field
    case 0 => c.host == d.host
    case 1 => c.database == d.database
    case 2 => c.username == d.username
    case 3 => c.password == d.password
    case 4 => c.trustCert == d.trustCert
    case 5 => c.encrypt == d.encrypt
    case _ => true
  }

  lemma {:induction false} UnsetFieldStays(c: Config, settings: seq<Setting>, field: nat)
    requires Unset(settings, field)
    ensures SameField(c, AssignAll(c, settings), field)
    decreases |settings|
  {
    if settings != [] {
      var first := settings[0];
      assert Field(first) != field;
      UnsetFieldStays(Assign(c, first), settings[1..], field);
      assert SameField(c, Assign(c, first), field);
    }
  }

  lemma {:induction false} UnsetPortStays(c: Config, settings: seq<Setting>)
    requires PortUnset(settings)
    ensures AssignAll(c, settings).port == c.port
    decreases |settings|
  {
    if settings != [] {
      var first := settings[0];
      assert first in settings;
      UnsetPortStays(Assign(c, first), settings[1..]);
    }
  }

  lemma ParsedIsAssigned(segments: seq<string>)
    requires segments != [] && WellFormed(segments) && forall s :: s in segments ==> ';' !in s
    ensures Parse(Join(segments, ';')) == Ok(AssignAll(DEFAULT, Settings(segments)))
  {
    SplitJoin(segments, ';');
    ParseIsAssignAll(segments, DEFAULT);
  }

  /** What a well-formed string parses to, field by field: of several settings of a field the last holds. */
  lemma ParsedSettingsHold(segments: seq<string>, i: nat)
    requires segments != [] && WellFormed(segments) && forall s :: s in segments ==> ';' !in s
    requires i < |Settings(segments)|
    requires forall j :: i < j < |Settings(segments)| ==> Field(Settings(segments)[j]) != Field(Settings(segments)[i])
    ensures Parse(Join(segments, ';')).Ok? && Carries(Parse(Join(segments, ';')).value, Settings(segments)[i])
  {
    ParsedIsAssigned(segments);
    LastSettingHolds(DEFAULT, Settings(segments), i);
  }

  /** A field that is not set has its default; the port does even if the server is set without one. */
  lemma OmittedFieldsDefault(settings: seq<Setting>) returns (c: Config)
    ensures c == AssignAll(DEFAULT, settings)
    ensures (forall s :: s in settings ==> !s.Server?) ==> c.host == "localhost"
    ensures (forall s :: s in settings && s.Server? ==> s.port == None) ==> c.port == 1433
    ensures (forall s :: s in settings ==> !s.Database?) ==> c.database == ""
    ensures (forall s :: s in settings ==> !s.Username?) ==> c.username == ""
    ensures (forall s :: s in settings ==> !s.Password?) ==> c.password == ""
    ensures (forall s :: s in settings ==> !s.TrustCert?) ==> !c.trustCert
    ensures (forall s :: s in settings ==> !s.Encrypt?) ==> c.encrypt
  {
    c := AssignAll(DEFAULT, settings);
    forall field: nat | Unset(settings, field)
      ensures SameField(DEFAULT, c, field)
    {
      UnsetFieldStays(DEFAULT, settings, field);
    }
    if PortUnset(settings) {
      UnsetPortStays(DEFAULT, settings);
    }
    assert (forall s :: s in settings ==> !s.Server?) ==> Unset(settings, 0);
    assert (forall s :: s in settings ==> !s.Database?) ==> Unset(settings, 1);
    assert (forall s :: s in settings ==> !s.Username?) ==> Unset(settings, 2);
    assert (forall s :: s in settings ==> !s.Password?) ==> Unset(settings, 3);
    assert (forall s :: s in settings ==> !s.TrustCert?) ==> Unset(settings, 4);
    assert (forall s :: s in settings ==> !s.Encrypt?) ==> Unset(settings, 5);
  }

  /** The settings of a list of segments are what its segments read as, in order, the rest left out. */
  lemma {:induction false} SettingsAre(segments: seq<string>)
    requires WellFormed(segments)
    ensures forall s :: s in Settings(segments)
                        <==> !s.Unrecognised? && exists i :: 0 <= i < |segments| && ReadSegment(segments[i]) == Ok(s)
  {
    if segments != [] {
      var first, rest := ReadSegment(segments[0]).value, segments[1..];
      SettingsAre(rest);
      forall s
        ensures s in Settings(segments)
                <==> !s.Unrecognised? && exists i :: 0 <= i < |segments| && ReadSegment(segments[i]) == Ok(s)
      {
        SettingAmong(segments, s);
      }
    }
  }

  lemma SettingAmong(segments: seq<string>, s: Setting)
    requires segments != [] && WellFormed(segments)
    requires s in Settings(segments[1..])
             <==> !s.Unrecognised?
                  && exists i :: 0 <= i < |segments[1..]| && ReadSegment(segments[1..][i]) == Ok(s)
    ensures s in Settings(segments)
            <==> !s.Unrecognised? && exists i :: 0 <= i < |segments| && ReadSegment(segments[i]) == Ok(s)
  {
    var rest := segments[1..];
    if i :| 0 <= i < |rest| && ReadSegment(rest[i]) == Ok(s) {
      assert segments[i + 1] == rest[i];
    }
    if i :| 0 <= i < |segments| && ReadSegment(segments[i]) == Ok(s) {
      assert i > 0 ==> rest[i - 1] == segments[i];
    }
  }
}
