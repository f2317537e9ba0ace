/** Data source settings: printing them as a connection string, parsing one, and saving them to
    and loading them from the ODBC INI. */
module DataSources {
  import opened Text

  // ---- Keys, in the order in which they are printed

  datatype TextKey =
    | Driver | Dsn | LoginUrl | Uid | Pwd | UserAgent | HttpLogFile | DebugLogFile | RetsVersion
    | UserAgentPassword | UserAgentAuthType | EncodingType | ProxyUrl | ProxyPassword

  datatype FlagKey =
    | StandardNames | UseHttpGet | UseHttpLogging | UseDebugLogging | UseBulkMetadata
    | IgnoreMetadataType | UseCompactFormat | DisableGetObjectMetadata | EnableUserAgentAuth
    | TreatDecimalAsString | UseProxy | SupportsQueryStar | HttpLogEverything

  datatype Key = OfText(t: TextKey) | OfFlag(f: FlagKey)

  const ORDER: seq<Key> := [
    OfText(Driver), OfText(Dsn), OfText(LoginUrl), OfText(Uid), OfText(Pwd), OfFlag(StandardNames),
    OfText(UserAgent), OfFlag(UseHttpGet), OfFlag(UseHttpLogging), OfText(HttpLogFile),
    OfFlag(UseDebugLogging), OfText(DebugLogFile), OfFlag(UseBulkMetadata), OfText(RetsVersion),
    OfFlag(IgnoreMetadataType), OfFlag(UseCompactFormat), OfFlag(DisableGetObjectMetadata),
    OfFlag(EnableUserAgentAuth), OfText(UserAgentPassword), OfText(UserAgentAuthType),
    OfFlag(TreatDecimalAsString), OfText(EncodingType), OfFlag(UseProxy), OfText(ProxyUrl),
    OfText(ProxyPassword), OfFlag(SupportsQueryStar), OfFlag(HttpLogEverything)
  ]

  lemma OrderAt(key: Key, place: nat)
    requires place ==
             match key
             case OfText(Driver) => 0
             case OfText(Dsn) => 1
             case OfText(LoginUrl) => 2
             case OfText(Uid) => 3
             case OfText(Pwd) => 4
             case OfFlag(StandardNames) => 5
             case OfText(UserAgent) => 6
             case OfFlag(UseHttpGet) => 7
             case OfFlag(UseHttpLogging) => 8
             case OfText(HttpLogFile) => 9
             case OfFlag(UseDebugLogging) => 10
             case OfText(DebugLogFile) => 11
             case OfFlag(UseBulkMetadata) => 12
             case OfText(RetsVersion) => 13
             case OfFlag(IgnoreMetadataType) => 14
             case OfFlag(UseCompactFormat) => 15
             case OfFlag(DisableGetObjectMetadata) => 16
             case OfFlag(EnableUserAgentAuth) => 17
             case OfText(UserAgentPassword) => 18
             case OfText(UserAgentAuthType) => 19
             case OfFlag(TreatDecimalAsString) => 20
             case OfText(EncodingType) => 21
             case OfFlag(UseProxy) => 22
             case OfText(ProxyUrl) => 23
             case OfText(ProxyPassword) => 24
             case OfFlag(SupportsQueryStar) => 25
             case OfFlag(HttpLogEverything) => 26
    ensures |ORDER| == 27 && ORDER[place] == key
  {
  }

  lemma OrderHasAll(key: Key)
    ensures key in ORDER
  {
    var place :=
      match key
      case OfText(Driver) => 0
      case OfText(Dsn) => 1
      case OfText(LoginUrl) => 2
      case OfText(Uid) => 3
      case OfText(Pwd) => 4
      case OfFlag(StandardNames) => 5
      case OfText(UserAgent) => 6
      case OfFlag(UseHttpGet) => 7
      case OfFlag(UseHttpLogging) => 8
      case OfText(HttpLogFile) => 9
      case OfFlag(UseDebugLogging) => 10
      case OfText(DebugLogFile) => 11
      case OfFlag(UseBulkMetadata) => 12
      case OfText(RetsVersion) => 13
      case OfFlag(IgnoreMetadataType) => 14
      case OfFlag(UseCompactFormat) => 15
      case OfFlag(DisableGetObjectMetadata) => 16
      case OfFlag(EnableUserAgentAuth) => 17
      case OfText(UserAgentPassword) => 18
      case OfText(UserAgentAuthType) => 19
      case OfFlag(TreatDecimalAsString) => 20
      case OfText(EncodingType) => 21
      case OfFlag(UseProxy) => 22
      case OfText(ProxyUrl) => 23
      case OfText(ProxyPassword) => 24
      case OfFlag(SupportsQueryStar) => 25
      case OfFlag(HttpLogEverything) => 26
      ;
    OrderAt(key, place);
  }

  lemma AllInOrder()
    ensures forall key: Key :: key in ORDER
  {
    forall key: Key ensures key in ORDER {
      OrderHasAll(key);
    }
  }

  function KeyName(key: Key): string {
    match key
    case OfText(Driver) => "DRIVER"
    case OfText(Dsn) => "DSN"
    case OfText(LoginUrl) => "LoginUrl"
    case OfText(Uid) => "UID"
    case OfText(Pwd) => "PWD"
    case OfFlag(StandardNames) => "StandardNames"
    case OfText(UserAgent) => "UserAgent"
    case OfFlag(UseHttpGet) => "UseHttpGet"
    case OfFlag(UseHttpLogging) => "UseHttpLogging"
    case OfText(HttpLogFile) => "HttpLogFile"
    case OfFlag(UseDebugLogging) => "UseDebugLogging"
    case OfText(DebugLogFile) => "DebugLogFile"
    case OfFlag(UseBulkMetadata) => "UseBulkMetadata"
    case OfText(RetsVersion) => "RetsVersion"
    case OfFlag(IgnoreMetadataType) => "IgnoreMetadataType"
    case OfFlag(UseCompactFormat) => "UseCompactFormat"
    case OfFlag(DisableGetObjectMetadata) => "DisableGetObjectMetadata"
    case OfFlag(EnableUserAgentAuth) => "EnableUserAgentAuth"
    case OfText(UserAgentPassword) => "UserAgentPassword"
    case OfText(UserAgentAuthType) => "UserAgentAuthType"
    case OfFlag(TreatDecimalAsString) => "TreatDecimalAsString"
    case OfText(EncodingType) => "EncodingType"
    case OfFlag(UseProxy) => "UseProxy"
    case OfText(ProxyUrl) => "ProxyUrl"
    case OfText(ProxyPassword) => "ProxyPassword"
    case OfFlag(SupportsQueryStar) => "SupportsQueryStar"
    case OfFlag(HttpLogEverything) => "HttpLogEverything"
  }

  /** The key with a name. */
  ghost function KeyOf(name: string): (key: Option<Key>)
    ensures key.Some? ==> KeyName(key.value) == name
    ensures key.None? ==> forall k: Key :: KeyName(k) != name
  {
    if k: Key :| KeyName(k) == name then Some(k) else None
  }

  lemma TextNamesDiffer(j: TextKey, k: TextKey)
    requires KeyName(OfText(j)) == KeyName(OfText(k))
    ensures j == k
  {
    var a, b := KeyName(OfText(j)), KeyName(OfText(k));
    assert |a| == |b| && a[0] == b[0];
    if |a| == 17 {
      assert a[9] == b[9];
    }
  }

  lemma FlagNamesDiffer(j: FlagKey, k: FlagKey)
    requires KeyName(OfFlag(j)) == KeyName(OfFlag(k))
    ensures j == k
  {
    var a, b := KeyName(OfFlag(j)), KeyName(OfFlag(k));
    assert |a| == |b| && a[0] == b[0];
    if |a| >= 15 {
      assert a[3] == b[3];
    }
  }

  lemma TextAndFlagNamesDiffer(j: TextKey, k: FlagKey)
    ensures KeyName(OfText(j)) != KeyName(OfFlag(k))
  {
    var a, b := KeyName(OfText(j)), KeyName(OfFlag(k));
    assert |a| != |b| || a[0] != b[0];
  }

  lemma NamesDiffer(j: Key, k: Key)
    requires KeyName(j) == KeyName(k)
    ensures j == k
  {
    match (j, k)
    case (OfText(s), OfText(t)) => TextNamesDiffer(s, t);
    case (OfFlag(f), OfFlag(g)) => FlagNamesDiffer(f, g);
    case (OfText(s), OfFlag(f)) => TextAndFlagNamesDiffer(s, f);
    case (OfFlag(f), OfText(s)) => TextAndFlagNamesDiffer(s, f);
  }

  lemma KeyOfName(key: Key)
    ensures KeyOf(KeyName(key)) == Some(key)
  {
    NamesDiffer(KeyOf(KeyName(key)).value, key);
  }

  /** Names contain neither of the two separators. */
  lemma TextNameIsFree(t: TextKey, c: char)
    requires c == ';' || c == '='
    ensures Free(KeyName(OfText(t)), c)
  {
  }

  lemma ShortFlagNameIsFree(f: FlagKey, c: char)
    requires (c == ';' || c == '=') && |KeyName(OfFlag(f))| < 15
    ensures Free(KeyName(OfFlag(f)), c)
  {
  }

  lemma MiddlingFlagNameIsFree(f: FlagKey, c: char)
    requires (c == ';' || c == '=') && 15 <= |KeyName(OfFlag(f))| < 18
    ensures Free(KeyName(OfFlag(f)), c)
  {
  }

  lemma LongFlagNameIsFree(f: FlagKey, c: char)
    requires (c == ';' || c == '=') && 18 <= |KeyName(OfFlag(f))| < 20
    ensures Free(KeyName(OfFlag(f)), c)
  {
  }

  lemma LongestFlagNameIsFree(f: FlagKey, c: char)
    requires (c == ';' || c == '=') && 20 <= |KeyName(OfFlag(f))|
    ensures Free(KeyName(OfFlag(f)), c)
  {
  }

  lemma NameIsFree(key: Key, c: char)
    requires c == ';' || c == '='
    ensures Free(KeyName(key), c)
  {
    match key
    case OfText(t) => TextNameIsFree(t, c);
    case OfFlag(f) =>
      if |KeyName(key)| < 15 {
        ShortFlagNameIsFree(f, c);
      } else if |KeyName(key)| < 18 {
        MiddlingFlagNameIsFree(f, c);
      } else if |KeyName(key)| < 20 {
        LongFlagNameIsFree(f, c);
      } else {
        LongestFlagNameIsFree(f, c);
      }
  }

  // ---- Settings

  predicate IsFlag(key: Key) {
    key.OfFlag?
  }

  const ALL_KEYS: set<Key> := (set t: TextKey | true :: OfText(t)) + (set f: FlagKey | true :: OfFlag(f))

  lemma AllKeys(key: Key)
    ensures key in ALL_KEYS
  {
  }

  datatype Value = Text(text: string) | Flag(on: bool)

  /** The members of a data source, one for each key. */
  type Settings = d: map<Key, Value> | forall k: Key :: k in d && d[k].Flag? == IsFlag(k)
    ghost witness Defaults()

  function Defaults(): (d: map<Key, Value>)
    ensures forall k: Key :: k in d && d[k] == Default(k)
  {
    assert forall k: Key :: k in ALL_KEYS by {
      forall k: Key ensures k in ALL_KEYS {
        AllKeys(k);
      }
    }
    map k | k in ALL_KEYS :: Default(k)
  }

  /** A new object: everything empty and off, except that the GetObject metadata is disabled. */
  const FRESH: Settings := Defaults()

  function Default(key: Key): Value {
    if IsFlag(key) then Flag(key == OfFlag(DisableGetObjectMetadata)) else Text("")
  }

  /** Enters the text of a value; for a flag, any text but `true` in some letter case is false. */
  function Put(d: Settings, key: Key, value: string): Settings {
    d[key := Typed(key, value)]
  }

  function Typed(key: Key, value: string): Value {
    if IsFlag(key) then Flag(StringToBool(value)) else Text(value)
  }

  function Lower(c: char): char {
    if 'A' <= c <= 'Z' then (c as int - 'A' as int + 'a' as int) as char else c
  }

  function ToLower(s: string): string {
    seq(|s|, i requires 0 <= i < |s| => Lower(s[i]))
  }

  function StringToBool(s: string): bool {
    ToLower(s) == "true"
  }

  function BoolToString(b: bool): string {
    if b then "true" else "false"
  }

  lemma BoolRoundTrip(b: bool)
    ensures StringToBool(BoolToString(b)) == b
  {
    assert ToLower("true") == "true";
    assert ToLower("false")[0] == 'f';
  }

  // ---- Printing

  /** Credentials are left out while their switch is off. */
  predicate Carried(d: Settings, key: Key) {
    match key
    case OfText(UserAgentPassword) | OfText(UserAgentAuthType) => d[OfFlag(EnableUserAgentAuth)].on
    case OfText(ProxyUrl) | OfText(ProxyPassword) => d[OfFlag(UseProxy)].on
    case _ => true
  }

  /** Empty strings are left out, and flags at their default, except StandardNames. */
  function ShownValue(key: Key, value: Value): Option<string>
    requires value.Flag? == IsFlag(key)
  {
    match value
    case Text(text) => if text == "" then None else Some(text)
    case Flag(on) => if key == OfFlag(StandardNames) || on != Default(key).on then Some(BoolToString(on)) else None
  }

  /** The value printed for a key. */
  function Shown(d: Settings, key: Key): Option<string> {
    if Carried(d, key) then ShownValue(key, d[key]) else None
  }

  function Piece(d: Settings, key: Key): string {
    match Shown(d, key)
    case None => ""
    case Some(value) => KeyName(key) + "=" + value + ";"
  }

  /** The pieces for some keys, in order. */
  function Printed(d: Settings, keys: seq<Key>): string {
    if keys == [] then ""
    else
      var last := |keys| - 1;
      Printed(d, keys[..last]) + Piece(d, keys[last])
  }

  function ConnectionString(d: Settings): string {
    Printed(d, ORDER)
  }

  // ---- What is printed

  /** A text is printed unless it is empty, and the credentials of the user agent and of the proxy
      only while those are switched on. */
  lemma TextPiece(d: Settings, t: TextKey)
    ensures var on := match t
                      case UserAgentPassword | UserAgentAuthType => d[OfFlag(EnableUserAgentAuth)].on
                      case ProxyUrl | ProxyPassword => d[OfFlag(UseProxy)].on
                      case _ => true;
            Piece(d, OfText(t)) ==
            if on && d[OfText(t)].text != "" then KeyName(OfText(t)) + "=" + d[OfText(t)].text + ";" else ""
  {
  }

  /** A flag is printed where it differs from its default, which is on for one of them only, and
      StandardNames always. */
  lemma FlagPiece(d: Settings, f: FlagKey)
    ensures var on := d[OfFlag(f)].on;
            Piece(d, OfFlag(f)) ==
            if f == StandardNames || on != (f == DisableGetObjectMetadata) then
              KeyName(OfFlag(f)) + "=" + (if on then "true" else "false") + ";"
            else ""
  {
  }

  lemma {:induction false} PrintedIsConcat(d: Settings, keys: seq<Key>, pieceOf: Key -> string)
    requires forall k :: pieceOf(k) == Piece(d, k)
    ensures Printed(d, keys) == Concat(Mapped(keys, pieceOf))
  {
    if keys != [] {
      var last := |keys| - 1;
      PrintedIsConcat(d, keys[..last], pieceOf);
      ConcatOneMore(Mapped(keys[..last], pieceOf), pieceOf(keys[last]));
      MappedOneMore(keys, pieceOf);
    }
  }

  /** A connection string is its members one after the other, each of the 27 at its place. */
  lemma PrintedInOrder(d: Settings, key: Key, place: nat)
    requires place ==
             match key
             case OfText(Driver) => 0
             case OfText(Dsn) => 1
             case OfText(LoginUrl) => 2
             case OfText(Uid) => 3
             case OfText(Pwd) => 4
             case OfFlag(StandardNames) => 5
             case OfText(UserAgent) => 6
             case OfFlag(UseHttpGet) => 7
             case OfFlag(UseHttpLogging) => 8
             case OfText(HttpLogFile) => 9
             case OfFlag(UseDebugLogging) => 10
             case OfText(DebugLogFile) => 11
             case OfFlag(UseBulkMetadata) => 12
             case OfText(RetsVersion) => 13
             case OfFlag(IgnoreMetadataType) => 14
             case OfFlag(UseCompactFormat) => 15
             case OfFlag(DisableGetObjectMetadata) => 16
             case OfFlag(EnableUserAgentAuth) => 17
             case OfText(UserAgentPassword) => 18
             case OfText(UserAgentAuthType) => 19
             case OfFlag(TreatDecimalAsString) => 20
             case OfText(EncodingType) => 21
             case OfFlag(UseProxy) => 22
             case OfText(ProxyUrl) => 23
             case OfText(ProxyPassword) => 24
             case OfFlag(SupportsQueryStar) => 25
             case OfFlag(HttpLogEverything) => 26
    ensures var pieces := Mapped(ORDER, k => Piece(d, k));
            ConnectionString(d) == Concat(pieces) && |pieces| == 27 && pieces[place] == Piece(d, key)
  {
    PrintedIsConcat(d, ORDER, k => Piece(d, k));
    OrderAt(key, place);
  }

  // ---- Parsing

  ghost function ApplyToken(d: Settings, token: string): Settings {
    var (name, value) := Cut(token);
    match KeyOf(name)
    case None => d
    case Some(key) => Put(d, key, value)
  }

  /** A token with an `=` sets the field named before the first one to what follows it. One
      without is taken for a key and its value at once: it sets the field of that name, if there
      is one, to the name itself. */
  lemma TokenApplied(d: Settings, token: string)
    ensures Free(token, '=') ==>
              ApplyToken(d, token) == match KeyOf(token)
                                      case None => d
                                      case Some(key) => Put(d, key, token)
    ensures forall name, value | token == name + "=" + value && Free(name, '=') ::
              ApplyToken(d, token) == match KeyOf(name)
                                      case None => d
                                      case Some(key) => Put(d, key, value)
  {
    forall name, value | token == name + "=" + value && Free(name, '=') ensures Cut(token) == (name, value) {
      CutOfPair(name, value);
    }
  }

  lemma TokenSets(d: Settings, key: Key, prefix: string, v: string)
    requires prefix == KeyName(key) + "="
    ensures ApplyToken(d, prefix + v) == Put(d, key, v)
  {
    NameIsFree(key, '=');
    KeyOfName(key);
    CutOfPair(KeyName(key), v);
  }

  /** What the token with each literal name sets: a text, */
  lemma TextToken(d: Settings, t: TextKey, prefix: string, v: string)
    requires prefix ==
             match t
              case Driver => "DRIVER="
              case Dsn => "DSN="
              case LoginUrl => "LoginUrl="
              case Uid => "UID="
              case Pwd => "PWD="
              case UserAgent => "UserAgent="
              case HttpLogFile => "HttpLogFile="
              case DebugLogFile => "DebugLogFile="
              case RetsVersion => "RetsVersion="
              case UserAgentPassword => "UserAgentPassword="
              case UserAgentAuthType => "UserAgentAuthType="
              case EncodingType => "EncodingType="
              case ProxyUrl => "ProxyUrl="
              case ProxyPassword => "ProxyPassword="
    ensures ApplyToken(d, prefix + v) == d[OfText(t) := Text(v)]
  {
    assert prefix == KeyName(OfText(t)) + "=";
    TokenSets(d, OfText(t), prefix, v);
  }

  /** or a flag. */
  lemma FlagToken(d: Settings, f: FlagKey, prefix: string, v: string)
    requires prefix ==
             match f
              case StandardNames => "StandardNames="
              case UseHttpGet => "UseHttpGet="
              case UseHttpLogging => "UseHttpLogging="
              case UseDebugLogging => "UseDebugLogging="
              case UseBulkMetadata => "UseBulkMetadata="
              case IgnoreMetadataType => "IgnoreMetadataType="
              case UseCompactFormat => "UseCompactFormat="
              case DisableGetObjectMetadata => "DisableGetObjectMetadata="
              case EnableUserAgentAuth => "EnableUserAgentAuth="
              case TreatDecimalAsString => "TreatDecimalAsString="
              case UseProxy => "UseProxy="
              case SupportsQueryStar => "SupportsQueryStar="
              case HttpLogEverything => "HttpLogEverything="
    ensures ApplyToken(d, prefix + v) == d[OfFlag(f) := Flag(StringToBool(v))]
  {
    assert prefix == KeyName(OfFlag(f)) + "=";
    TokenSets(d, OfFlag(f), prefix, v);
  }

  /** User and password come from their own tokens, and nothing else changes. */
  lemma Credentials(d: Settings, u: string, p: string)
    requires Free(u, ';') && Free(p, ';')
    ensures Parsed(d, "UID=" + u + ";PWD=" + p) == d[OfText(Uid) := Text(u)][OfText(Pwd) := Text(p)]
  {
    UserToken(d, u);
    PasswordToken(d[OfText(Uid) := Text(u)], p);
    TwoTokens(d, "UID=" + u, "PWD=" + p, "UID=" + u + ";PWD=" + p);
  }

  lemma UserToken(d: Settings, u: string)
    ensures ApplyToken(d, "UID=" + u) == d[OfText(Uid) := Text(u)]
    ensures Free(u, ';') ==> Free("UID=" + u, ';')
  {
    TextToken(d, Uid, "UID=", u);
  }

  lemma PasswordToken(d: Settings, p: string)
    ensures ApplyToken(d, "PWD=" + p) == d[OfText(Pwd) := Text(p)]
    ensures Free(p, ';') ==> Free("PWD=" + p, ';')
  {
    TextToken(d, Pwd, "PWD=", p);
  }

  lemma TwoTokens(d: Settings, first: string, second: string, both: string)
    requires Free(first, ';') && Free(second, ';') && both == first + ";" + second
    ensures Parsed(d, both) == ApplyToken(ApplyToken(d, first), second)
  {
    ParseOfConcat(d, first, second);
    ParseOfToken(d, first);
    ParseOfToken(ApplyToken(d, first), second);
  }

  lemma ParseOfToken(d: Settings, token: string)
    requires Free(token, ';')
    ensures Parsed(d, token) == ApplyToken(d, token)
  {
    SplitOfFree(token, ';');
    assert ApplyTokens(d, [token][..0]) == d;
  }

  /** A flag is on for `true` in any letter case, and off for any other text. */
  lemma FlagTexts(v: string)
    ensures StringToBool(v) <==>
            |v| == 4 && v[0] in "tT" && v[1] in "rR" && v[2] in "uU" && v[3] in "eE"
  {
    var lower := ToLower(v);
    if StringToBool(v) {
      assert |v| == 4 && lower[0] == 't' && lower[1] == 'r' && lower[2] == 'u' && lower[3] == 'e';
    }
    if |v| == 4 && v[0] in "tT" && v[1] in "rR" && v[2] in "uU" && v[3] in "eE" {
      assert lower[0] == 't' && lower[1] == 'r' && lower[2] == 'u' && lower[3] == 'e';
      assert lower == "true";
    }
  }

  /** A new object: no text, and the one flag that keeps object metadata off. */
  lemma FreshSettings()
    ensures forall k: TextKey :: FRESH[OfText(k)] == Text("")
    ensures forall k: FlagKey :: FRESH[OfFlag(k)] == Flag(k == DisableGetObjectMetadata)
  {
  }

  ghost function ApplyTokens(d: Settings, tokens: seq<string>): Settings {
    if tokens == [] then d
    else
      var last := |tokens| - 1;
      ApplyToken(ApplyTokens(d, tokens[..last]), tokens[last])
  }

  ghost function Parsed(d: Settings, s: string): Settings {
    ApplyTokens(d, Split(s, ';'))
  }

  lemma {:induction false} ApplyConcat(d: Settings, a: seq<string>, b: seq<string>)
    ensures ApplyTokens(d, a + b) == ApplyTokens(ApplyTokens(d, a), b)
    decreases |b|
  {
    if b == [] {
      assert a + b == a;
    } else {
      assert (a + b)[..|a + b| - 1] == a + b[..|b| - 1];
      ApplyConcat(d, a, b[..|b| - 1]);
    }
  }

  /** Parsing two strings joined by a semicolon is parsing one after the other. */
  lemma ParseOfConcat(d: Settings, s: string, t: string)
    ensures Parsed(d, s + ";" + t) == Parsed(Parsed(d, s), t)
  {
    SplitOfConcat(s, t, ';');
    ApplyConcat(d, Split(s, ';'), Split(t, ';'));
  }

  ghost function KeyIn(token: string): Option<Key> {
    KeyOf(Cut(token).0)
  }

  /** The last token for a key. */
  ghost function LastFor(tokens: seq<string>, key: Key): (token: Option<string>)
    ensures token.Some? ==> token.value in tokens && KeyIn(token.value) == Some(key)
    ensures token.None? ==> forall t | t in tokens :: KeyIn(t) != Some(key)
  {
    if tokens == [] then None
    else
      var last := |tokens| - 1;
      assert tokens == tokens[..last] + [tokens[last]];
      if KeyIn(tokens[last]) == Some(key) then Some(tokens[last]) else LastFor(tokens[..last], key)
  }

  lemma ApplyTokenField(d: Settings, token: string, key: Key)
    ensures ApplyToken(d, token)[key] == if KeyIn(token) == Some(key) then Typed(key, Cut(token).1) else d[key]
  {
  }

  /** Each field holds the value of the last token for its key, or what it held before; tokens
      with other keys change nothing. */
  lemma {:induction false} LastTokenWins(d: Settings, tokens: seq<string>, key: Key)
    ensures ApplyTokens(d, tokens)[key] ==
            match LastFor(tokens, key) {
              case None => d[key]
              case Some(token) => Typed(key, Cut(token).1)
            }
  {
    if tokens != [] {
      var last := |tokens| - 1;
      LastTokenWins(d, tokens[..last], key);
      ApplyTokenField(ApplyTokens(d, tokens[..last]), tokens[last], key);
    }
  }

  ghost predicate DistinctKeys(tokens: seq<string>) {
    forall i, j | 0 <= i < j < |tokens| && KeyIn(tokens[i]).Some? :: KeyIn(tokens[i]) != KeyIn(tokens[j])
  }

  /** The order of tokens with distinct keys does not matter. */
  lemma PermutedTokens(d: Settings, a: seq<string>, b: seq<string>)
    requires multiset(a) == multiset(b) && DistinctKeys(a)
    ensures ApplyTokens(d, a) == ApplyTokens(d, b)
  {
    forall key ensures ApplyTokens(d, a)[key] == ApplyTokens(d, b)[key] {
      LastTokenWins(d, a, key);
      LastTokenWins(d, b, key);
      SameLast(a, b, key);
    }
  }

  lemma OneForKey(tokens: seq<string>, s: string, t: string)
    requires DistinctKeys(tokens) && s in tokens && t in tokens && KeyIn(s) == KeyIn(t) && KeyIn(s).Some?
    ensures s == t
  {
    var i :| 0 <= i < |tokens| && tokens[i] == s;
    var j :| 0 <= j < |tokens| && tokens[j] == t;
    assert i == j;
  }

  lemma SameLast(a: seq<string>, b: seq<string>, key: Key)
    requires multiset(a) == multiset(b) && DistinctKeys(a)
    ensures LastFor(a, key) == LastFor(b, key)
  {
    var s, t := LastFor(a, key), LastFor(b, key);
    if s.Some? {
      assert s.value in multiset(a);
      assert s.value in b;
    }
    if t.Some? {
      assert t.value in multiset(b);
      assert t.value in a;
    }
    if s.Some? && t.Some? {
      OneForKey(a, s.value, t.value);
    }
  }

  // ---- Round trip

  /** What a connection string cannot carry is cleared: credentials whose switch is off. */
  function Normalized(d: Settings): Settings {
    map key | key in ALL_KEYS :: if Carried(d, key) then d[key] else Text("")
  }

  /** No string contains the separator. */
  ghost predicate Clean(d: Settings) {
    forall key | !IsFlag(key) :: Free(d[key].text, ';')
  }

  /** Enters the value shown of `d` for a key, if any. */
  function PutShown(e: Settings, d: Settings, key: Key): Settings {
    match Shown(d, key)
    case None => e
    case Some(value) => Put(e, key, value)
  }

  /** What parsing makes of the settings `e` from the pieces of `d` for some keys. */
  function Restored(e: Settings, d: Settings, keys: seq<Key>): Settings {
    if keys == [] then e
    else
      var last := |keys| - 1;
      PutShown(Restored(e, d, keys[..last]), d, keys[last])
  }

  lemma ShownIsClean(d: Settings, key: Key)
    requires Clean(Normalized(d)) && Shown(d, key).Some?
    ensures Free(Shown(d, key).value, ';')
  {
  }

  /** Reading back the value shown, or the default where none is, gives the value. */
  lemma ShownValueReadsBack(key: Key, value: Value)
    requires value.Flag? == IsFlag(key)
    ensures value == match ShownValue(key, value) {
              case Some(text) => Typed(key, text)
              case None => Default(key)
            }
  {
    BoolRoundTrip(true);
    BoolRoundTrip(false);
  }

  /** The token printed for a key, if any. */
  function TokenFor(d: Settings, key: Key): seq<string> {
    match Shown(d, key)
    case None => []
    case Some(value) => [KeyName(key) + "=" + value]
  }

  function Tokens(d: Settings, keys: seq<Key>): seq<string> {
    if keys == [] then []
    else
      var last := |keys| - 1;
      Tokens(d, keys[..last]) + TokenFor(d, keys[last])
  }

  lemma TerminateWithPiece(d: Settings, key: Key, before: seq<string>)
    ensures Terminate(before + TokenFor(d, key), ';') == Terminate(before, ';') + Piece(d, key)
  {
    if Shown(d, key).Some? {
      var token := KeyName(key) + "=" + Shown(d, key).value;
      TerminateOneMore(before, token, ';');
      assert Terminate(before, ';') + token + ";" == Terminate(before, ';') + (token + ";");
    } else {
      assert before + [] == before;
    }
  }

  lemma {:induction false} PrintedIsTerminated(d: Settings, keys: seq<Key>)
    ensures Printed(d, keys) == Terminate(Tokens(d, keys), ';')
  {
    if keys != [] {
      var last := |keys| - 1;
      PrintedIsTerminated(d, keys[..last]);
      TerminateWithPiece(d, keys[last], Tokens(d, keys[..last]));
    }
  }

  lemma PairIsFree(name: string, value: string)
    requires Free(name, ';') && Free(value, ';')
    ensures AllFree([name + "=" + value], ';')
  {
  }

  lemma TokenIsFree(d: Settings, key: Key)
    requires Clean(Normalized(d))
    ensures AllFree(TokenFor(d, key), ';')
  {
    if Shown(d, key).Some? {
      ShownIsClean(d, key);
      NameIsFree(key, ';');
      PairIsFree(KeyName(key), Shown(d, key).value);
    }
  }

  lemma {:induction false} TokensAreFree(d: Settings, keys: seq<Key>)
    requires Clean(Normalized(d))
    ensures AllFree(Tokens(d, keys), ';')
  {
    if keys != [] {
      TokensAreFree(d, keys[..|keys| - 1]);
      TokenIsFree(d, keys[|keys| - 1]);
    }
  }

  lemma ApplyOfPair(d: Settings, key: Key, value: string)
    ensures ApplyToken(d, KeyName(key) + "=" + value) == Put(d, key, value)
  {
    KeyOfName(key);
    NameIsFree(key, '=');
    CutOfPair(KeyName(key), value);
  }

  lemma ApplyOneMore(d: Settings, tokens: seq<string>, token: string)
    ensures ApplyTokens(d, tokens + [token]) == ApplyToken(ApplyTokens(d, tokens), token)
  {
    assert (tokens + [token])[..|tokens|] == tokens;
  }

  lemma ApplyTokenFor(e: Settings, d: Settings, key: Key, before: seq<string>)
    ensures ApplyTokens(e, before + TokenFor(d, key)) == PutShown(ApplyTokens(e, before), d, key)
  {
    if Shown(d, key).Some? {
      var value := Shown(d, key).value;
      ApplyOneMore(e, before, KeyName(key) + "=" + value);
      ApplyOfPair(ApplyTokens(e, before), key, value);
    } else {
      assert before + [] == before;
    }
  }

  lemma {:induction false} ApplyOfTokens(e: Settings, d: Settings, keys: seq<Key>)
    ensures ApplyTokens(e, Tokens(d, keys)) == Restored(e, d, keys)
  {
    if keys != [] {
      var last := |keys| - 1;
      ApplyOfTokens(e, d, keys[..last]);
      ApplyTokenFor(e, d, keys[last], Tokens(d, keys[..last]));
    }
  }

  lemma FieldOfPut(e: Settings, d: Settings, last: Key, key: Key)
    ensures PutShown(e, d, last)[key] ==
            if key == last && Shown(d, key).Some? then Typed(key, Shown(d, key).value) else e[key]
  {
  }

  lemma {:induction false} FieldOfRestored(e: Settings, d: Settings, keys: seq<Key>, key: Key)
    ensures Restored(e, d, keys)[key] ==
            if key in keys && Shown(d, key).Some? then Typed(key, Shown(d, key).value) else e[key]
  {
    if keys != [] {
      var before, last := keys[..|keys| - 1], keys[|keys| - 1];
      assert keys == before + [last];
      FieldOfRestored(e, d, before, key);
      FieldOfPut(Restored(e, d, before), d, last, key);
    }
  }

  lemma ShownRestores(d: Settings, key: Key)
    ensures Normalized(d)[key] ==
            if Shown(d, key).Some? then Typed(key, Shown(d, key).value) else Default(key)
  {
    ShownValueReadsBack(key, d[key]);
  }

  lemma FieldIsNormalized(e: Settings, d: Settings, keys: seq<Key>, key: Key)
    requires key in keys && e[key] == Default(key)
    ensures Restored(e, d, keys)[key] == Normalized(d)[key]
  {
    FieldOfRestored(e, d, keys, key);
    ShownRestores(d, key);
  }

  lemma SameFields(a: Settings, b: Settings)
    requires forall key: Key :: a[key] == b[key]
    ensures a == b
  {
  }

  lemma RestoredIsNormalized(e: Settings, d: Settings, keys: seq<Key>)
    requires (forall key: Key :: key in keys) && forall key: Key :: e[key] == Default(key)
    ensures Restored(e, d, keys) == Normalized(d)
  {
    var restored, normalized := Restored(e, d, keys), Normalized(d);
    forall key ensures restored[key] == normalized[key] {
      FieldIsNormalized(e, d, keys, key);
    }
    SameFields(restored, normalized);
  }

  /** The empty token after the last separator has no key. */
  lemma ApplyOfEmpty(d: Settings)
    ensures ApplyToken(d, "") == d
  {
    assert forall key :: |KeyName(key)| > 0;
  }

  lemma ParsedIsClean(d: Settings, s: string)
    requires Clean(d)
    ensures Clean(Parsed(d, s))
  {
    SplitPartsAreFree(s, ';');
    var tokens := Split(s, ';');
    forall key | !IsFlag(key) ensures Free(Parsed(d, s)[key].text, ';') {
      LastTokenWins(d, tokens, key);
      if LastFor(tokens, key).Some? {
        var i :| 0 <= i < |tokens| && tokens[i] == LastFor(tokens, key).value;
        assert Free(tokens[i], ';');
      }
    }
  }

  lemma PrintedSplits(d: Settings, keys: seq<Key>)
    requires Clean(Normalized(d))
    ensures Split(Printed(d, keys), ';') == Tokens(d, keys) + [""]
  {
    PrintedIsTerminated(d, keys);
    TokensAreFree(d, keys);
    SplitOfTerminate(Tokens(d, keys), ';');
  }

  lemma ParseOfSplit(d: Settings, s: string, tokens: seq<string>)
    requires Split(s, ';') == tokens + [""]
    ensures Parsed(d, s) == ApplyTokens(d, tokens)
  {
    ApplyOneMore(d, tokens, "");
    ApplyOfEmpty(ApplyTokens(d, tokens));
  }

  lemma ParseOfPrinted(e: Settings, d: Settings, keys: seq<Key>)
    requires Clean(Normalized(d))
    ensures Parsed(e, Printed(d, keys)) == Restored(e, d, keys)
  {
    PrintedSplits(d, keys);
    ParseOfSplit(e, Printed(d, keys), Tokens(d, keys));
    ApplyOfTokens(e, d, keys);
  }

  /** Parsing a printed connection string into a fresh object gives the settings back, but for
      what is cleared, exactly when no string that is printed contains a semicolon. */
  lemma RoundTrip(d: Settings)
    ensures Parsed(FRESH, ConnectionString(d)) == Normalized(d) <==> Clean(Normalized(d))
  {
    ParsedIsClean(FRESH, ConnectionString(d));
    if Clean(Normalized(d)) {
      AllInOrder();
      ParseOfPrinted(FRESH, d, ORDER);
      RestoredIsNormalized(FRESH, d, ORDER);
    }
  }

  lemma ShownNormalized(d: Settings, key: Key)
    ensures Shown(Normalized(d), key) == Shown(d, key)
  {
  }

  lemma {:induction false} PrintedNormalized(d: Settings, keys: seq<Key>)
    ensures Printed(Normalized(d), keys) == Printed(d, keys)
  {
    if keys != [] {
      PrintedNormalized(d, keys[..|keys| - 1]);
      ShownNormalized(d, keys[|keys| - 1]);
    }
  }

  /** Printing what was parsed gives the identical string. */
  lemma PrintOfParsed(d: Settings)
    requires Clean(Normalized(d))
    ensures ConnectionString(Parsed(FRESH, ConnectionString(d))) == ConnectionString(d)
  {
    RoundTrip(d);
    PrintedNormalized(d, ORDER);
  }
}
