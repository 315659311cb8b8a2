/** The buckets of a request, and why buckets of different kinds never share a counter. */
module RateLimitKeys {
  import opened Wrappers
  import opened Text
  import opened Headers
  import opened RateLimitMachine

  datatype RateLimitConfig = RateLimitConfig(
    windowSecs: nat,
    perIpRequests: nat,
    perUserRequests: nat,
    perRouteRequests: nat)

  datatype Request = Request(path: string, headers: HeaderMap)

  datatype Kind = Route | Ip | User

  function KindName(kind: Kind): string {
    match kind
    case Route => "route"
    case Ip => "ip"
    case User => "user"
  }

  function KindRank(kind: Kind): nat {
    match kind
    case Route => 0
    case Ip => 1
    case User => 2
  }

  function KindLimit(config: RateLimitConfig, kind: Kind): nat {
    match kind
    case Route => config.perRouteRequests
    case Ip => config.perIpRequests
    case User => config.perUserRequests
  }

  // ----- Keys -----------------------------------------------------------------------------------

  predicate IsKeyChar(c: char) {
    IsAlphanumeric(c) || c == '-' || c == '_' || c == '.' || c == '/'
  }

  /** What a key may hold, letter for letter; all else is shown as '_'. */
  lemma SanitizedCharacters(value: string, i: nat)
    requires i < |value|
    ensures |SanitizeKey(value)| == |value|
    ensures var c := value[i];
            SanitizeKey(value)[i] ==
            if 'a' <= c <= 'z' || 'A' <= c <= 'Z' || '0' <= c <= '9' || c in "-_./" then c else '_'
  {
  }

  function KeyChar(c: char): char {
    if IsKeyChar(c) then c else '_'
  }

  function SanitizeKey(value: string): string {
    Map(value, KeyChar)
  }

  function Key(kind: Kind, text: string): string {
    match kind
    case Route => "rl:route:" + SanitizeKey(text)
    case Ip => "rl:ip:" + SanitizeKey(text)
    case User => "rl:user:" + SanitizeKey(text)
  }

  /** A key read back: its kind and its sanitised text. */
  function SplitKey(key: string): Option<(Kind, string)> {
    var parts := Split(key, ':');
    if |parts| != 3 || parts[0] != "rl" then None
    else if parts[1] == "route" then Some((Route, parts[2]))
    else if parts[1] == "ip" then Some((Ip, parts[2]))
    else if parts[1] == "user" then Some((User, parts[2]))
    else None
  }

  lemma SanitizedHasNoColon(value: string)
    ensures ':' !in SanitizeKey(value)
  {
    var t := SanitizeKey(value);
    forall i | 0 <= i < |t| ensures t[i] != ':' {
      assert t[i] == KeyChar(value[i]);
    }
  }

  lemma JoinThree(a: string, b: string, c: string)
    ensures Join([a, b, c], ':') == a + ":" + (b + ":" + c)
  {
    assert [b, c][1..] == [c] && [a, b, c][1..] == [b, c];
    assert Join([b, c], ':') == b + ":" + c;
  }

  lemma KeyIsJoined(kind: Kind, text: string)
    ensures Key(kind, text) == Join(["rl", KindName(kind), SanitizeKey(text)], ':')
  {
    hide SanitizeKey, Join;
    var t := SanitizeKey(text);
    JoinThree("rl", KindName(kind), t);
    match kind {
      case Route => assert "rl:route:" + t == "rl" + ":" + ("route" + ":" + t);
      case Ip => assert "rl:ip:" + t == "rl" + ":" + ("ip" + ":" + t);
      case User => assert "rl:user:" + t == "rl" + ":" + ("user" + ":" + t);
    }
  }

  /** Every key splits back into its kind and its sanitised text, because the text has no ':'. */
  lemma KeySplitsBack(kind: Kind, text: string)
    ensures SplitKey(Key(kind, text)) == Some((kind, SanitizeKey(text)))
  {
    hide Split, Join, SanitizeKey, Key;
    SanitizedHasNoColon(text);
    KeyIsJoined(kind, text);
    var parts := ["rl", KindName(kind), SanitizeKey(text)];
    SplitOfJoin(parts, ':');
  }

  /** Two keys are the same exactly when their kinds and their sanitised texts are. */
  lemma KeysAreSeparate(kind1: Kind, text1: string, kind2: Kind, text2: string)
    ensures Key(kind1, text1) == Key(kind2, text2) <==> kind1 == kind2 && SanitizeKey(text1) == SanitizeKey(text2)
  {
    KeySplitsBack(kind1, text1);
    KeySplitsBack(kind2, text2);
  }

  /** Characters that a key shows as '_'. */
  predicate IsBlurred(c: char) {
    c == '_' || !IsKeyChar(c)
  }

  /** Which routes, addresses or users share a counter: those of one length that differ only where
      both show as '_'. */
  lemma SharedCounters(kind: Kind, s: string, t: string)
    ensures Key(kind, s) == Key(kind, t)
            <==> |s| == |t| && forall i :: 0 <= i < |s| ==> s[i] == t[i] || (IsBlurred(s[i]) && IsBlurred(t[i]))
  {
    hide Key, IsKeyChar;
    KeysAreSeparate(kind, s, kind, t);
    var a, b := SanitizeKey(s), SanitizeKey(t);
    if |s| == |t| {
      forall i | 0 <= i < |s|
        ensures a[i] == b[i] <==> s[i] == t[i] || (IsBlurred(s[i]) && IsBlurred(t[i]))
      {
        UnderscoreIsAKeyChar();
      }
      if a == b {
        assert forall i :: 0 <= i < |s| ==> a[i] == b[i];
      }
    }
  }

  lemma UnderscoreIsAKeyChar()
    ensures IsKeyChar('_')
  {
  }

  /** So texts of key characters have counters of their own. */
  lemma OwnCounters(kind: Kind, s: string, t: string)
    requires All(s, IsKeyChar) && All(t, IsKeyChar)
    ensures Key(kind, s) == Key(kind, t) <==> s == t
  {
    SharedCounters(kind, s, t);
  }

  // ----- The buckets of a request -----------------------------------------------------------------

  function ReadHeader(headers: HeaderMap, name: string): Option<string> {
    match Get(headers, name)
    case Some(Visible(text)) => if Trim(text) == "" then None else Some(Trim(text))
    case _ => None
  }

  /** A header counts if it is sent as text that is not blank, and then without whitespace around it. */
  lemma HeadersAreTrimmed(headers: HeaderMap, name: string, value: string)
    ensures ReadHeader(headers, name) == Some(value)
            <==> && value != ""
                 && name in headers
                 && headers[name].Visible?
                 && Trim(headers[name].text) == value
  {
  }

  function ClientIp(headers: HeaderMap): Option<string> {
    var forwarded := ReadHeader(headers, FORWARDED_FOR_HEADER);
    var first := if forwarded.Some? then Trim(Split(forwarded.value, ',')[0]) else "";
    if first != "" then Some(first) else ReadHeader(headers, REAL_IP_HEADER)
  }

  lemma FirstPart(s: string)
    ensures ',' !in s ==> Split(s, ',')[0] == s
    ensures ',' in s ==> Split(s, ',')[0] == s[..IndexOf(s, ',')]
  {
  }

  lemma {:induction false} IndexAfter(left: string, s: string, right: string)
    requires ',' !in left && ',' in s
    ensures IndexOf(left + s + right, ',') == |left| + IndexOf(s, ',')
  {
    var t := left + s + right;
    var i := |left| + IndexOf(s, ',');
    assert t[i] == ',';
    assert forall j :: 0 <= j < i ==> t[j] == if j < |left| then left[j] else s[j - |left|];
  }

  lemma WhiteHasNoComma(s: string)
    requires All(s, IsWhite)
    ensures ',' !in s
  {
  }

  /** What stands before the first comma of x-forwarded-for, trimmed. */
  function FirstHop(headers: HeaderMap): string {
    match Get(headers, "x-forwarded-for")
    case Some(Visible(text)) => Trim(Split(text, ',')[0])
    case _ => ""
  }

  /** The address is the first hop; if that is nothing, or there is no such header, or it is not
      text, it is x-real-ip.  Trimming the whole header first makes no difference. */
  lemma ClientIpIsFirstHop(headers: HeaderMap)
    ensures ClientIp(headers) == if FirstHop(headers) != "" then Some(FirstHop(headers))
                                 else ReadHeader(headers, "x-real-ip")
  {
    match Get(headers, FORWARDED_FOR_HEADER) {
      case Some(Visible(text)) =>
        hide Split;
        TrimmedFirstHop(text);
        FirstHopOfBlank();
      case _ =>
    }
  }

  lemma FirstHopOfBlank()
    ensures Trim(Split("", ',')[0]) == ""
  {
  }

  lemma TrimmedFirstHop(text: string)
    ensures Trim(Split(Trim(text), ',')[0]) == Trim(Split(text, ',')[0])
  {
    hide IsWhite, TrimBoth, Split, IndexOf;
    var left, right := TrimBothParts(text, IsWhite);
    var core := Trim(text);
    assert text == left + core + right;
    WhiteHasNoComma(left);
    WhiteHasNoComma(right);
    FirstPart(text);
    FirstPart(core);
    if ',' in core {
      var i := IndexOf(core, ',');
      IndexAfter(left, core, right);
      assert ',' in text;
      assert text[..|left| + i] == left + core[..i] + "";
      TrimIgnores(left, core[..i], "", IsWhite);
    } else {
      assert ',' !in text;
      TrimFixes(core, IsWhite);
    }
  }

  function BucketOf(config: RateLimitConfig, kind: Kind, text: string): Bucket {
    Bucket(Key(kind, text), KindLimit(config, kind))
  }

  /** What a request is limited by, in the order in which it is charged. */
  function Parts(request: Request): seq<(Kind, string)> {
    var ip := ClientIp(request.headers);
    var user := ReadHeader(request.headers, USER_ID_HEADER);
    [(Route, request.path)]
    + (if ip.Some? then [(Ip, ip.value)] else [])
    + (if user.Some? then [(User, user.value)] else [])
  }

  function Buckets(request: Request, config: RateLimitConfig): seq<Bucket> {
    var parts := Parts(request);
    seq(|parts|, i requires 0 <= i < |parts| => BucketOf(config, parts[i].0, parts[i].1))
  }

  method FromRequest(request: Request, config: RateLimitConfig) returns (buckets: seq<Bucket>)
    ensures buckets == Buckets(request, config)
    ensures var ip, user := ClientIp(request.headers), ReadHeader(request.headers, "x-user-id");
            && |buckets| == 1 + (if ip.Some? then 1 else 0) + (if user.Some? then 1 else 0)
            && buckets[0] == Bucket("rl:route:" + SanitizeKey(request.path), config.perRouteRequests)
            && (ip.Some? ==> buckets[1] == Bucket("rl:ip:" + SanitizeKey(ip.value), config.perIpRequests))
            && (user.Some? ==>
                  buckets[|buckets| - 1] == Bucket("rl:user:" + SanitizeKey(user.value), config.perUserRequests))
  {
    buckets := [Bucket("rl:route:" + SanitizeKey(request.path), config.perRouteRequests)];
    var ip := ClientIp(request.headers);
    if ip.Some? {
      buckets := buckets + [Bucket("rl:ip:" + SanitizeKey(ip.value), config.perIpRequests)];
    }
    var user := ReadHeader(request.headers, USER_ID_HEADER);
    if user.Some? {
      buckets := buckets + [Bucket("rl:user:" + SanitizeKey(user.value), config.perUserRequests)];
    }
  }

  // ----- The protocol of a configured limiter --------------------------------------------------------

  function KeyRank(key: string): nat {
    match SplitKey(key)
    case Some((kind, _)) => KindRank(kind)
    case None => 3
  }

  function KeyLimit(config: RateLimitConfig, key: string): nat {
    match SplitKey(key)
    case Some((kind, _)) => KindLimit(config, kind)
    case None => 0
  }

  /** The protocol for a configuration.  EXPIRE takes seconds and the store counts milliseconds;
      `expireMax` is the largest number of seconds the store's EXPIRE takes. */
  function ForConfig(config: RateLimitConfig, expireMax: nat): Params {
    Params(config.windowSecs * 1000, config.windowSecs <= expireMax, 3, KeyRank, key => KeyLimit(config, key))
  }

  lemma KeyFacts(config: RateLimitConfig, kind: Kind, text: string)
    ensures KeyRank(Key(kind, text)) == KindRank(kind)
    ensures KeyLimit(config, Key(kind, text)) == KindLimit(config, kind)
  {
    KeySplitsBack(kind, text);
  }

  /** A request has between one and three buckets, of strictly increasing kind, with pairwise
      distinct keys, each with its kind's limit: what the protocol asks of a request. */
  lemma RequestsAreWellFormed(request: Request, config: RateLimitConfig, expireMax: nat)
    ensures var buckets := Buckets(request, config);
            && 1 <= |buckets| <= 3
            && WellFormed(ForConfig(config, expireMax), buckets)
            && (forall i, j :: 0 <= i < j < |buckets| ==> buckets[i].key != buckets[j].key)
  {
    var parts := Parts(request);
    var buckets := Buckets(request, config);
    forall i | 0 <= i < |parts|
      ensures KeyRank(buckets[i].key) == KindRank(parts[i].0)
      ensures buckets[i].limit == KeyLimit(config, buckets[i].key)
    {
      KeyFacts(config, parts[i].0, parts[i].1);
    }
    forall i, j | 0 <= i < j < |parts| ensures KindRank(parts[i].0) < KindRank(parts[j].0) {
    }
    forall i, j | 0 <= i < j < |buckets| ensures KeyRank(buckets[i].key) < KeyRank(buckets[j].key) {
      assert KindRank(parts[i].0) < KindRank(parts[j].0);
    }
  }

  /** Charging a bucket of one kind leaves the counters of the other kinds as they were. */
  lemma ChargesStayInTheirKind(p: Params, store: Store, now: nat, kind1: Kind, text1: string, kind2: Kind, text2: string)
    requires kind1 != kind2
    ensures Peek(Script(p, store, now, Key(kind1, text1)).0, now, Key(kind2, text2)) == Peek(store, now, Key(kind2, text2))
  {
    KeysAreSeparate(kind1, text1, kind2, text2);
  }
}
