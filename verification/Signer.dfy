/** Signing and checking a request, as functions of its parts. */
module Signatures {
  import opened Options
  import opened Numerals
  import opened Framing
  import opened Nonces
  import opened TTLTables

  type Header = map<string, seq<string>>

  /** The libraries underneath: the keyed hash, and the canonical form of header names. */
  datatype Library = Library(hmac: (string, string) -> seq<byte>, canonical: string -> string)

  datatype Config = Config(headersToSign: seq<string>, signVerbAndURI: bool,
                           nonceName: string, timestampName: string, signatureName: string, versionName: string)

  /** A request's body: none, as in a GET request, one that can be read, or one that fails to be read. */
  datatype Payload = NoBody | Text(text: string) | Unreadable

  datatype Message = Message(verb: string, uri: string, body: Payload, header: Header)

  datatype SignError =
    | NoConfig
    | NoKey
    | KeyUnreadable
    | BodyUnreadable
    | NoRandomness
    | HeaderNotFound(name: string)
    | BadEncoding
    | BadSignature
    | BadTimestamp
    | FutureTimestamp
    | OldTimestamp
    | NonceSeen

  datatype Result<T> = Success(value: T) | Failure(error: SignError)

  /** http.Header.Get: the first value under the canonical name, or the empty string. */
  function Get(lib: Library, h: Header, name: string): string {
    var k := lib.canonical(name);
    if k in h && h[k] != [] then h[k][0] else ""
  }

  /** http.Header.Set. */
  function Put(lib: Library, h: Header, name: string, value: string): Header {
    h[lib.canonical(name) := [value]]
  }

  /** A missing body counts as an empty one. */
  function Body(m: Message): string {
    if m.body.Text? then m.body.text else ""
  }

  function FirstMissing(h: Header, names: seq<string>): (r: Option<string>)
    ensures r.None? <==> forall i :: 0 <= i < |names| ==> names[i] in h
    ensures r.Some? ==> exists i :: 0 <= i < |names| && names[i] == r.value && r.value !in h && forall j :: 0 <= j < i ==> names[j] in h
  {
    if names == [] then None
    else if names[0] !in h then Some(names[0])
    else
      assert forall i :: 0 < i < |names| ==> names[i] == names[1..][i - 1];
      FirstMissing(h, names[1..])
  }

  function GetAll(lib: Library, h: Header, names: seq<string>): (vs: seq<string>)
    ensures |vs| == |names| && forall i :: 0 <= i < |vs| ==> vs[i] == Get(lib, h, names[i])
  {
    seq(|names|, i requires 0 <= i < |names| => Get(lib, h, names[i]))
  }

  /** The values of the headers to sign; each name must be present as spelt, but is read by its canonical form. */
  function HeaderValues(lib: Library, h: Header, names: seq<string>): (r: Result<seq<string>>)
  {
    match FirstMissing(h, names)
    case Some(name) => Failure(HeaderNotFound(name))
    case None => Success(GetAll(lib, h, names))
  }

  function Covered(cfg: Config, m: Message, timestamp: string, nonce: string, values: seq<string>): Signed {
    Signed(timestamp, nonce, Body(m), if cfg.signVerbAndURI then Some((m.verb, m.uri)) else None, values)
  }

  function MAC(lib: Library, cfg: Config, key: string, m: Message, timestamp: string, nonce: string, values: seq<string>): seq<byte> {
    lib.hmac(key, SignedText(Covered(cfg, m, timestamp, nonce, values)))
  }

  /** checkMAC: the signature must be base16 and decode to the hash. */
  function CheckMAC(mac: seq<byte>, signature: string): Result<()> {
    match HexDecode(signature)
    case None => Failure(BadEncoding)
    case Some(expected) => if expected == mac then Success(()) else Failure(BadSignature)
  }

  /** The header after signing at second `now` with the given nonce. */
  function SignedHeader(lib: Library, cfg: Config, key: string, m: Message, nonce: string, now: int): Result<Header> {
    if m.body.Unreadable? then Failure(BodyUnreadable)
    else
    match HeaderValues(lib, m.header, cfg.headersToSign)
    case Failure(e) => Failure(e)
    case Success(values) =>
      var mac := MAC(lib, cfg, key, m, FormatInt(now), nonce, values);
      var h1 := Put(lib, m.header, cfg.nonceName, nonce);
      var h2 := Put(lib, h1, cfg.timestampName, FormatInt(now));
      var h3 := Put(lib, h2, cfg.signatureName, HexEncode(mac));
      Success(Put(lib, h3, cfg.versionName, "2"))
  }

  /** The checks before the timestamp: the three headers, the signed headers and the signature. Yields nonce and timestamp. */
  function Authentic(lib: Library, cfg: Config, key: string, m: Message): Result<(string, string)> {
    var signature := Get(lib, m.header, cfg.signatureName);
    var nonce := Get(lib, m.header, cfg.nonceName);
    var timestamp := Get(lib, m.header, cfg.timestampName);
    if signature == "" then Failure(HeaderNotFound(cfg.signatureName))
    else if nonce == "" then Failure(HeaderNotFound(cfg.nonceName))
    else if timestamp == "" then Failure(HeaderNotFound(cfg.timestampName))
    else if m.body.Unreadable? then Failure(BodyUnreadable)
    else
      match HeaderValues(lib, m.header, cfg.headersToSign)
      case Failure(e) => Failure(e)
      case Success(values) =>
        match CheckMAC(MAC(lib, cfg, key, m, timestamp, nonce, values), signature)
        case Failure(e) => Failure(e)
        case Success(_) => Success((nonce, timestamp))
  }

  /** checkTimestamp. */
  function CheckTimestamp(timestamp: string, now: int, ttl: int): Result<int> {
    match ParseInt(timestamp)
    case None => Failure(BadTimestamp)
    case Some(t) =>
      if t >= now + MAX_SKEW then Failure(FutureTimestamp)
      else if t <= now - (ttl - MAX_SKEW) then Failure(OldTimestamp)
      else Success(t)
  }

  /** Everything that is decided without the nonce cache. */
  function Admissible(lib: Library, cfg: Config, key: string, m: Message, now: int, ttl: int): Result<(string, int)> {
    match Authentic(lib, cfg, key, m)
    case Failure(e) => Failure(e)
    case Success((nonce, timestamp)) =>
      match CheckTimestamp(timestamp, now, ttl)
      case Failure(e) => Failure(e)
      case Success(t) => Success((nonce, t))
  }

  /** One verification: what can be decided without the cache, then the cache. */
  ghost predicate Handles(lib: Library, cfg: Config, key: string, capacity: nat, ttl: int, table: Table, m: Message,
                          check: int, look: int, again: int, stamp: int, table': Table, result: Result<()>)
  {
    match Admissible(lib, cfg, key, m, Unix(check), ttl)
    case Failure(e) => result == Failure(e) && table' == table
    case Success((nonce, t)) =>
      && Verifies(capacity, ttl, table, Call(true, t, nonce, check, look, again, stamp), table', result.Success?)
      && (result.Failure? ==> result.error == NonceSeen)
  }

  /** A sequence of requests put to one service, with the clock readings of each, the cache before each, and the outcomes. */
  datatype Traffic = Traffic(lib: Library, cfg: Config, key: string, capacity: nat, ttl: int, requests: seq<Message>,
                             readings: seq<Readings>, tables: seq<Table>, results: seq<Result<()>>)

  datatype Readings = Readings(check: int, look: int, again: int, stamp: int)

  ghost predicate IsTraffic(t: Traffic) {
    var n := |t.requests|;
    && 1 <= t.capacity && 1 <= t.ttl <= 9_223_372_036
    && |t.readings| == |t.results| == n && |t.tables| == n + 1 && t.tables[0] == map[]
    && (forall i :: 0 <= i < n ==> Handled(t, i))
    && (forall i :: 0 <= i < n ==> t.readings[i].check <= t.readings[i].look <= t.readings[i].again <= t.readings[i].stamp)
    && (forall i, j :: 0 <= i < j < n ==> t.readings[i].stamp <= t.readings[j].look)
  }

  ghost predicate Handled(t: Traffic, i: nat)
    requires i < |t.requests| == |t.readings| == |t.results| && |t.tables| == |t.requests| + 1
  {
    var c := t.readings[i];
    Handles(t.lib, t.cfg, t.key, t.capacity, t.ttl, t.tables[i], t.requests[i], c.check, c.look, c.again, c.stamp,
            t.tables[i + 1], t.results[i])
  }

  /** What a request amounts to for the nonce cache. */
  function CallOf(t: Traffic, i: nat): Call
    requires i < |t.requests| == |t.readings|
  {
    var c := t.readings[i];
    match Admissible(t.lib, t.cfg, t.key, t.requests[i], Unix(c.check), t.ttl)
    case Success((nonce, timestamp)) => Call(true, timestamp, nonce, c.check, c.look, c.again, c.stamp)
    case Failure(_) => Call(false, 0, "", c.check, c.look, c.again, c.stamp)
  }

  function RunOf(t: Traffic): (r: Run)
    requires |t.requests| == |t.readings| == |t.results|
    ensures |r.calls| == |r.accepted| == |t.requests|
    ensures forall i :: 0 <= i < |t.requests| ==> r.calls[i] == CallOf(t, i) && r.accepted[i] == t.results[i].Success?
  {
    Run(t.capacity, t.ttl, seq(|t.requests|, i requires 0 <= i < |t.requests| => CallOf(t, i)), t.tables,
        seq(|t.results|, i requires 0 <= i < |t.results| => t.results[i].Success?))
  }

  /** Every sequence of verifications is a run of the nonce cache. */
  lemma TrafficIsRun(t: Traffic)
    requires IsTraffic(t)
    ensures RunOf(t).Valid()
  {
    var r := RunOf(t);
    forall i | 0 <= i < |r.calls| ensures r.Step(i) {
      assert Handled(t, i);
    }
  }

  /** The names the signer writes are four different headers. */
  ghost predicate DistinctNames(lib: Library, cfg: Config) {
    var c := lib.canonical;
    && c(cfg.nonceName) != c(cfg.timestampName) && c(cfg.nonceName) != c(cfg.signatureName)
    && c(cfg.nonceName) != c(cfg.versionName) && c(cfg.timestampName) != c(cfg.signatureName)
    && c(cfg.timestampName) != c(cfg.versionName) && c(cfg.signatureName) != c(cfg.versionName)
  }

  /** None of the headers to sign is one that signing writes. */
  ghost predicate SignedNamesApart(lib: Library, cfg: Config) {
    forall i :: 0 <= i < |cfg.headersToSign| ==>
      lib.canonical(cfg.headersToSign[i]) !in
        {lib.canonical(cfg.nonceName), lib.canonical(cfg.timestampName), lib.canonical(cfg.signatureName), lib.canonical(cfg.versionName)}
  }

  /** Signing does not change the values that were signed. */
  lemma SigningKeepsHeaderValues(lib: Library, cfg: Config, key: string, m: Message, nonce: string, now: int)
    requires SignedNamesApart(lib, cfg) && SignedHeader(lib, cfg, key, m, nonce, now).Success?
    ensures HeaderValues(lib, SignedHeader(lib, cfg, key, m, nonce, now).value, cfg.headersToSign)
         == HeaderValues(lib, m.header, cfg.headersToSign)
  {
    var h := SignedHeader(lib, cfg, key, m, nonce, now).value;
    var names := cfg.headersToSign;
    forall i | 0 <= i < |names| ensures names[i] in h && Get(lib, h, names[i]) == Get(lib, m.header, names[i]) {
      assert names[i] in m.header;
    }
    assert GetAll(lib, h, names) == GetAll(lib, m.header, names);
  }

  /** A signed request authenticates under the same key and configuration, with the nonce and clock it was signed with. */
  lemma SignedIsAuthentic(lib: Library, cfg: Config, key: string, m: Message, nonce: string, now: int)
    requires DistinctNames(lib, cfg) && SignedNamesApart(lib, cfg) && nonce != ""
    requires forall k, text :: |lib.hmac(k, text)| == 32
    requires SignedHeader(lib, cfg, key, m, nonce, now).Success?
    ensures Authentic(lib, cfg, key, m.(header := SignedHeader(lib, cfg, key, m, nonce, now).value)) == Success((nonce, FormatInt(now)))
  {
    var signed := m.(header := SignedHeader(lib, cfg, key, m, nonce, now).value);
    SigningKeepsHeaderValues(lib, cfg, key, m, nonce, now);
    var values := HeaderValues(lib, m.header, cfg.headersToSign).value;
    var mac := MAC(lib, cfg, key, m, FormatInt(now), nonce, values);
    assert mac == MAC(lib, cfg, key, signed, FormatInt(now), nonce, values);
    HexRoundTrip(mac);
    assert Get(lib, signed.header, cfg.nonceName) == nonce;
    assert Get(lib, signed.header, cfg.timestampName) == FormatInt(now);
    assert Get(lib, signed.header, cfg.signatureName) == HexEncode(mac);
  }

  /** Sign then verify: what was signed at second `s` is admissible at second `v` exactly inside the window. */
  lemma SignThenVerify(lib: Library, cfg: Config, key: string, m: Message, nonce: string, s: int, v: int, ttl: int)
    requires DistinctNames(lib, cfg) && SignedNamesApart(lib, cfg) && nonce != "" && IsInt64(s)
    requires forall k, text :: |lib.hmac(k, text)| == 32
    requires SignedHeader(lib, cfg, key, m, nonce, s).Success?
    ensures var r := Admissible(lib, cfg, key, m.(header := SignedHeader(lib, cfg, key, m, nonce, s).value), v, ttl);
            if v - (ttl - 5) < s < v + 5 then r == Success((nonce, s))
            else r == Failure(if s >= v + 5 then FutureTimestamp else OldTimestamp)
  {
    SignedIsAuthentic(lib, cfg, key, m, nonce, s);
    ParseFormat(s);
  }

  /** A freshly signed request is accepted exactly inside the window and when its nonce is not held. */
  lemma SignedRequestAccepted(lib: Library, cfg: Config, key: string, m: Message, nonce: string, signedAt: int, capacity: nat, ttl: int,
                              table: Table, check: int, look: int, again: int, stamp: int, table': Table, result: Result<()>)
    requires DistinctNames(lib, cfg) && SignedNamesApart(lib, cfg) && nonce != "" && IsInt64(Unix(signedAt))
    requires forall k, text :: |lib.hmac(k, text)| == 32
    requires SignedHeader(lib, cfg, key, m, nonce, Unix(signedAt)).Success?
    requires Handles(lib, cfg, key, capacity, ttl, table, m.(header := SignedHeader(lib, cfg, key, m, nonce, Unix(signedAt)).value),
                     check, look, again, stamp, table', result)
    ensures result.Success? <==> InWindow(Unix(signedAt), Unix(check), ttl) && Lookup(table, nonce, Unix(look)).None?
  {
    SignThenVerify(lib, cfg, key, m, nonce, Unix(signedAt), Unix(check), ttl);
  }

  /** What a message says of itself in the fields a signature covers. */
  function Claimed(lib: Library, cfg: Config, m: Message): Signed
    requires HeaderValues(lib, m.header, cfg.headersToSign).Success?
  {
    Covered(cfg, m, Get(lib, m.header, cfg.timestampName), Get(lib, m.header, cfg.nonceName),
            HeaderValues(lib, m.header, cfg.headersToSign).value)
  }

  lemma AuthenticMeans(lib: Library, cfg: Config, key: string, m: Message)
    requires Authentic(lib, cfg, key, m).Success?
    ensures HeaderValues(lib, m.header, cfg.headersToSign).Success?
    ensures HexDecode(Get(lib, m.header, cfg.signatureName)) == Some(lib.hmac(key, SignedText(Claimed(lib, cfg, m))))
    ensures Authentic(lib, cfg, key, m).value == (Claimed(lib, cfg, m).nonce, Claimed(lib, cfg, m).timestamp)
  {}

  /** There is a value under the name, and the first is not empty. */
  predicate Present(lib: Library, h: Header, name: string) {
    var k := lib.canonical(name);
    k in h && h[k] != [] && h[k][0] != ""
  }

  /** Exactly when a request is authentic: all headers are there, the body can be read, and the signature is the hash. */
  lemma AuthenticExactly(lib: Library, cfg: Config, key: string, m: Message)
    ensures Authentic(lib, cfg, key, m).Success? <==>
      && Present(lib, m.header, cfg.signatureName) && Present(lib, m.header, cfg.nonceName) && Present(lib, m.header, cfg.timestampName)
      && !m.body.Unreadable? && (forall i :: 0 <= i < |cfg.headersToSign| ==> cfg.headersToSign[i] in m.header)
      && HexDecode(m.header[lib.canonical(cfg.signatureName)][0]) == Some(lib.hmac(key, SignedText(Claimed(lib, cfg, m))))
  {}

  /** Why a request is refused: the first of these that applies. */
  lemma RefusedBecause(lib: Library, cfg: Config, key: string, m: Message)
    ensures var r := Authentic(lib, cfg, key, m);
            if !Present(lib, m.header, cfg.signatureName) then r == Failure(HeaderNotFound(cfg.signatureName))
            else if !Present(lib, m.header, cfg.nonceName) then r == Failure(HeaderNotFound(cfg.nonceName))
            else if !Present(lib, m.header, cfg.timestampName) then r == Failure(HeaderNotFound(cfg.timestampName))
            else if m.body.Unreadable? then r == Failure(BodyUnreadable)
            else if exists i :: 0 <= i < |cfg.headersToSign| && cfg.headersToSign[i] !in m.header
            then r.Failure? && r.error.HeaderNotFound? && r.error.name in cfg.headersToSign && r.error.name !in m.header
            else if HexDecode(m.header[lib.canonical(cfg.signatureName)][0]).None? then r == Failure(BadEncoding)
            else r.Success? || r == Failure(BadSignature)
  {}

  /** An authentic request with a timestamp that is no number is refused for that. */
  lemma BadTimestampRefused(lib: Library, cfg: Config, key: string, m: Message, now: int, ttl: int)
    requires Authentic(lib, cfg, key, m).Success?
    ensures Admissible(lib, cfg, key, m, now, ttl) == Failure(BadTimestamp) <==> ParseInt(Authentic(lib, cfg, key, m).value.1).None?
  {}

  /** If verb and URI are not signed they may be anything; otherwise a change shows unless the hash collides. */
  lemma RouteCounts(lib: Library, cfg: Config, key: string, m: Message, verb: string, uri: string)
    ensures !cfg.signVerbAndURI ==> Authentic(lib, cfg, key, m.(verb := verb, uri := uri)) == Authentic(lib, cfg, key, m)
    ensures (&& cfg.signVerbAndURI && (verb != m.verb || uri != m.uri) && Authentic(lib, cfg, key, m).Success?
             && SameSignature(lib, cfg, key, m, m.(verb := verb, uri := uri)))
            ==> Authentic(lib, cfg, key, m.(verb := verb, uri := uri)).Failure?
  {
    var n := m.(verb := verb, uri := uri);
    if cfg.signVerbAndURI && SameSignature(lib, cfg, key, m, n) && Authentic(lib, cfg, key, m).Success? && Authentic(lib, cfg, key, n).Success? {
      SignatureBindsMessage(lib, cfg, key, m, n);
    }
  }

  /** What signing writes: the four headers, each with one value, and nothing else. */
  lemma SigningWrites(lib: Library, cfg: Config, key: string, m: Message, nonce: string, now: int)
    requires DistinctNames(lib, cfg) && SignedHeader(lib, cfg, key, m, nonce, now).Success?
    ensures var h, c := SignedHeader(lib, cfg, key, m, nonce, now).value, lib.canonical;
            var written := {c(cfg.nonceName), c(cfg.timestampName), c(cfg.signatureName), c(cfg.versionName)};
            && h.Keys == m.header.Keys + written && (forall k :: k in m.header && k !in written ==> h[k] == m.header[k])
            && h[c(cfg.nonceName)] == [nonce] && h[c(cfg.timestampName)] == [FormatInt(now)] && h[c(cfg.versionName)] == ["2"]
            && |h[c(cfg.signatureName)]| == 1
  {}

  /** Both can be read and say the same; no body says the same as an empty one. */
  predicate SameBody(a: Payload, b: Payload) {
    match (a, b)
    case (Text(s), Text(t)) => s == t
    case (NoBody, Text(t)) => t == ""
    case (Text(s), NoBody) => s == ""
    case (NoBody, NoBody) => true
    case _ => false
  }

  /** Where both headers have values under the name, the first ones are the same; none is as good as an empty one. */
  predicate SameValue(lib: Library, a: Header, b: Header, name: string) {
    var k := lib.canonical(name);
    var none := (h: Header) => k !in h || h[k] == [];
    if none(a) then none(b) || b[k][0] == "" else if none(b) then a[k][0] == "" else a[k][0] == b[k][0]
  }

  /**
  What a signature vouches for: if two messages authenticate with the same signature bytes under a hash that does not
  collide on their two signed texts, they agree on nonce, timestamp, body, signed headers and, when these are signed, verb and URI.
  */
  lemma SignatureBindsMessage(lib: Library, cfg: Config, key: string, a: Message, b: Message)
    requires Authentic(lib, cfg, key, a).Success? && Authentic(lib, cfg, key, b).Success?
    requires HexDecode(Get(lib, a.header, cfg.signatureName)) == HexDecode(Get(lib, b.header, cfg.signatureName))
    requires HeaderValues(lib, a.header, cfg.headersToSign).Success? && HeaderValues(lib, b.header, cfg.headersToSign).Success?
    requires var s, t := SignedText(Claimed(lib, cfg, a)), SignedText(Claimed(lib, cfg, b));
             lib.hmac(key, s) == lib.hmac(key, t) ==> s == t
    ensures Authentic(lib, cfg, key, a) == Authentic(lib, cfg, key, b) && SameBody(a.body, b.body)
    ensures SameValue(lib, a.header, b.header, cfg.nonceName) && SameValue(lib, a.header, b.header, cfg.timestampName)
    ensures forall i :: 0 <= i < |cfg.headersToSign| ==> SameValue(lib, a.header, b.header, cfg.headersToSign[i])
    ensures cfg.signVerbAndURI ==> a.verb == b.verb && a.uri == b.uri
  {
    AuthenticMeans(lib, cfg, key, a);
    AuthenticMeans(lib, cfg, key, b);
    SignedTextRoundTrip(Claimed(lib, cfg, a));
    SignedTextRoundTrip(Claimed(lib, cfg, b));
  }

  /** Both messages carry one signature, in whatever letter case, and the hash does not collide on what they claim. */
  ghost predicate SameSignature(lib: Library, cfg: Config, key: string, a: Message, b: Message) {
    && HeaderValues(lib, a.header, cfg.headersToSign).Success? && HeaderValues(lib, b.header, cfg.headersToSign).Success?
    && HexDecode(Get(lib, a.header, cfg.signatureName)) == HexDecode(Get(lib, b.header, cfg.signatureName))
    && var s, t := SignedText(Claimed(lib, cfg, a)), SignedText(Claimed(lib, cfg, b));
       lib.hmac(key, s) == lib.hmac(key, t) ==> s == t
  }

  /** Requests with one signature are one call to the nonce cache. */
  lemma SameSignatureSameCall(t: Traffic, i: nat, j: nat)
    requires i < |t.requests| && j < |t.requests| == |t.readings|
    requires CallOf(t, i).genuine && CallOf(t, j).genuine
    requires SameSignature(t.lib, t.cfg, t.key, t.requests[i], t.requests[j])
    ensures CallOf(t, j).nonce == CallOf(t, i).nonce && CallOf(t, j).timestamp == CallOf(t, i).timestamp
  {
    SignatureBindsMessage(t.lib, t.cfg, t.key, t.requests[i], t.requests[j]);
  }

  /**
  Accept once, for requests: once a request has been accepted, any request with its signature is refused, however it
  is spelt and whatever else it carries, as long as no more than `capacity` requests are accepted from the second of the
  acceptance on, and the repeat is not held up longer between its timestamp check and its lookup than the first was
  before its insertion.
  */
  lemma RequestAcceptedOnce(t: Traffic, i: nat, j: nat)
    requires IsTraffic(t) && i < j < |t.requests| && t.results[i].Success?
    requires SameSignature(t.lib, t.cfg, t.key, t.requests[i], t.requests[j])
    requires |RunOf(t).Accepted(Unix(t.readings[i].stamp), j)| <= t.capacity
    requires Unix(t.readings[j].look) - Unix(t.readings[j].check) <= Unix(t.readings[i].stamp) - Unix(t.readings[i].check)
    ensures t.results[j].Failure? && (CallOf(t, j).genuine ==> t.results[j] == Failure(NonceSeen))
  {
    TrafficIsRun(t);
    assert Handled(t, i) && Handled(t, j);
    if t.results[j].Success? {
      SameSignatureSameCall(t, i, j);
      AcceptOnce(RunOf(t), i, j);
    }
  }

  /** A request that comes again unchanged carries its signature. */
  lemma SameRequestAcceptedOnce(t: Traffic, i: nat, j: nat)
    requires IsTraffic(t) && i < j < |t.requests| && t.results[i].Success? && t.requests[j] == t.requests[i]
    requires |RunOf(t).Accepted(Unix(t.readings[i].stamp), j)| <= t.capacity
    requires Unix(t.readings[j].look) - Unix(t.readings[j].check) <= Unix(t.readings[i].stamp) - Unix(t.readings[i].check)
    ensures t.results[j].Failure?
  {
    assert Handled(t, i);
    AuthenticMeans(t.lib, t.cfg, t.key, t.requests[i]);
    RequestAcceptedOnce(t, i, j);
  }
}

/** The nonce cache and the signing service that owns it. */
module Signers {
  import opened Options
  import opened TTLTables
  import opened TTLMaps
  import opened Numerals
  import opened Framing
  import opened Nonces
  import S = Signatures

  class NonceCache {
    const cache: TTLMap
    const cacheTTL: int

    constructor (capacity: int, cacheTTL: int)
      ensures Valid() && fresh(cache.Repr) && cache.Contents == map[]
      ensures this.cacheTTL == cacheTTL && cache.capacity == if capacity <= 0 then 0 else capacity
    {
      this.cacheTTL := cacheTTL;
      cache := new TTLMap(capacity, false);
    }

    ghost predicate Valid()
      reads cache, cache.Repr
    {
      cache.Valid()
    }

    /** Looks the nonce up and, if it is not there, puts it there. */
    method InCache(nonce: string, look: int, again: int, stamp: int, last: int) returns (hit: bool)
      requires Valid()
      modifies cache.Repr
      ensures Valid() && fresh(cache.Repr - old(cache.Repr))
      ensures Consults(cache.capacity, cacheTTL, old(cache.Contents), nonce, look, again, stamp, cache.Contents, hit)
    {
      var found := cache.Get(nonce, look, again);
      if found.Some? { return true; }
      var _ := cache.Set(nonce, EMPTY, cacheTTL, stamp, last);
      hit := false;
    }
  }

  class Request {
    const verb: string
    const uri: string
    const body: S.Payload
    var header: S.Header

    constructor (verb: string, uri: string, body: S.Payload, header: S.Header)
      ensures Contents() == S.Message(verb, uri, body, header)
    {
      this.verb, this.uri, this.body, this.header := verb, uri, body, header;
    }

    ghost function Contents(): S.Message
      reads this
    {
      S.Message(verb, uri, body, header)
    }
  }

  class Signer {
    const lib: S.Library
    const config: S.Config
    const nonceCache: NonceCache

    /** New: unset sizes and names take their defaults. */
    constructor (lib: S.Library, config: S.Config, capacity: int, timeout: int)
      ensures nonceCache.Valid() && fresh(nonceCache.cache.Repr) && nonceCache.cache.Contents == map[]
      ensures 1 <= nonceCache.cache.capacity && 1 <= nonceCache.cacheTTL
      ensures nonceCache.cache.capacity == (if capacity < 1 then 500_000 else capacity)
      ensures nonceCache.cacheTTL == (if timeout < 1 then 100 else timeout)
      ensures this.lib == lib && this.config == WithDefaults(config)
    {
      this.lib, this.config := lib, WithDefaults(config);
      nonceCache := new NonceCache(if capacity < 1 then 500_000 else capacity, if timeout < 1 then 100 else timeout);
    }

    /** The key to use: the file's content without one trailing newline if a path is given, else the bytes given, if any. */
    static function KeyOf(file: Option<Option<string>>, bytes: Option<string>): S.Result<string> {
      match file
      case Some(None) => S.Failure(S.KeyUnreadable)
      case Some(Some(content)) =>
        S.Success(if content != "" && content[|content| - 1] == '\n' then content[..|content| - 1] else content)
      case None => if bytes.Some? then S.Success(bytes.value) else S.Failure(S.NoKey)
    }

    /** A key file counts before key bytes, and loses one newline at its end. */
    static lemma KeyFromFile(key: string, bytes: Option<string>)
      ensures KeyOf(Some(Some(key + "\n")), bytes) == S.Success(key)
      ensures (key == "" || key[|key| - 1] != '\n') ==> KeyOf(Some(Some(key)), bytes) == S.Success(key)
      ensures KeyOf(Some(None), bytes) == S.Failure(S.KeyUnreadable)
      ensures KeyOf(None, bytes) == if bytes.Some? then S.Success(bytes.value) else S.Failure(S.NoKey)
    {
      var content := key + "\n";
      assert content[|content| - 1] == '\n' && content[..|content| - 1] == key;
    }

    /** Names that are set stay, and those that are not become the documented ones. */
    static lemma DefaultNames(c: S.Config)
      ensures c.nonceName != "" && c.timestampName != "" && c.signatureName != "" && c.versionName != "" ==> WithDefaults(c) == c
      ensures c.nonceName == c.timestampName == c.signatureName == c.versionName == "" ==>
        WithDefaults(c) == c.(nonceName := "X-Mailgun-Nonce", timestampName := "X-Mailgun-Timestamp",
                              signatureName := "X-Mailgun-Signature", versionName := "X-Mailgun-Signature-Version")
    {}

    /** New, with its errors: `file` is the outcome of reading the key file when a path is configured. */
    static method New(lib: S.Library, config: Option<S.Config>, file: Option<Option<string>>, bytes: Option<string>,
                      capacity: int, timeout: int) returns (r: S.Result<(Signer, string)>)
      ensures config.None? ==> r == S.Failure(S.NoConfig)
      ensures config.Some? && KeyOf(file, bytes).Failure? ==> r == S.Failure(KeyOf(file, bytes).error)
      ensures config.Some? && KeyOf(file, bytes).Success? ==>
        && r.Success? && r.value.1 == KeyOf(file, bytes).value
        && var s := r.value.0;
           && fresh(s) && s.lib == lib && s.config == WithDefaults(config.value)
           && s.nonceCache.Valid() && fresh(s.nonceCache.cache.Repr) && s.nonceCache.cache.Contents == map[]
           && s.nonceCache.cache.capacity == (if capacity < 1 then 500_000 else capacity)
           && s.nonceCache.cacheTTL == (if timeout < 1 then 100 else timeout)
    {
      if config.None? { return S.Failure(S.NoConfig); }
      var key := KeyOf(file, bytes);
      if key.Failure? { return S.Failure(key.error); }
      var s := new Signer(lib, config.value, capacity, timeout);
      r := S.Success((s, key.value));
    }

    static function WithDefaults(c: S.Config): S.Config {
      c.(nonceName := if c.nonceName == "" then "X-Mailgun-Nonce" else c.nonceName,
         timestampName := if c.timestampName == "" then "X-Mailgun-Timestamp" else c.timestampName,
         signatureName := if c.signatureName == "" then "X-Mailgun-Signature" else c.signatureName,
         versionName := if c.versionName == "" then "X-Mailgun-Signature-Version" else c.versionName)
    }

    method ExtractHeaderValues(r: Request) returns (values: S.Result<seq<string>>)
      ensures values == S.HeaderValues(lib, r.header, config.headersToSign)
    {
      var names, h, out := config.headersToSign, r.header, [];
      var i := 0;
      while i < |names|
        invariant 0 <= i <= |names| == |config.headersToSign| && names == config.headersToSign
        invariant S.FirstMissing(h, names) == S.FirstMissing(h, names[i..])
        invariant |out| == i && forall k :: 0 <= k < i ==> out[k] == S.Get(lib, h, names[k])
      {
        assert names[i..][1..] == names[i + 1..];
        if names[i] !in h {
          return S.Failure(S.HeaderNotFound(names[i]));
        }
        out := out + [S.Get(lib, h, names[i])];
        i := i + 1;
      }
      assert out == S.GetAll(lib, h, names);
      values := S.Success(out);
    }

    /** One more field goes into the hash, after a separator and its length. */
    static method Write(written: string, field: string) returns (out: string)
      ensures out == written + "|" + Frame(field)
    {
      out := written + "|" + Decimal(|field|) + "|" + field;
    }

    static method WriteAll(written: string, fields: seq<string>) returns (out: string)
      ensures out == written + Frames(fields)
    {
      out := written;
      for i := 0 to |fields|
        invariant out == written + Frames(fields[..i])
      {
        FramesAppend(fields[..i], fields[i]);
        assert fields[..i] + [fields[i]] == fields[..i + 1];
        out := Write(out, fields[i]);
      }
      assert fields[..|fields|] == fields;
    }

    /** Writes the length-prefixed fields into the hash one after the other. */
    method ComputeMAC(key: string, r: Request, timestamp: string, nonce: string, values: seq<string>) returns (mac: seq<byte>)
      ensures mac == S.MAC(lib, config, key, r.Contents(), timestamp, nonce, values)
    {
      var body := if r.body.Text? then r.body.text else "";
      var written := Decimal(|timestamp|) + "|" + timestamp;
      written := Write(written, nonce);
      written := Write(written, body);
      if config.signVerbAndURI {
        written := Write(written, r.verb);
        written := Write(written, r.uri);
      }
      written := WriteAll(written, values);
      SignedTextWritten(S.Covered(config, r.Contents(), timestamp, nonce, values));
      mac := lib.hmac(key, written);
    }

    /** `nonce` is what the random source yields, if it yields anything. */
    method SignRequest(r: Request, key: string, nonce: Option<string>, now: int) returns (result: S.Result<()>)
      modifies r
      ensures var signed := S.SignedHeader(lib, config, key, old(r.Contents()), if nonce.Some? then nonce.value else "", Unix(now));
              if signed.Failure? then result == S.Failure(signed.error) && r.header == old(r.header)
              else if nonce.None? then result == S.Failure(S.NoRandomness) && r.header == old(r.header)
              else result.Success? && r.header == signed.value
    {
      if r.body.Unreadable? { return S.Failure(S.BodyUnreadable); }
      var values := ExtractHeaderValues(r);
      if values.Failure? { return S.Failure(values.error); }
      if nonce.None? { return S.Failure(S.NoRandomness); }
      var timestamp := FormatInt(Unix(now));
      var mac := ComputeMAC(key, r, timestamp, nonce.value, values.value);
      var signature := HexEncode(mac);
      r.header := S.Put(lib, r.header, config.nonceName, nonce.value);
      r.header := S.Put(lib, r.header, config.timestampName, timestamp);
      r.header := S.Put(lib, r.header, config.signatureName, signature);
      r.header := S.Put(lib, r.header, config.versionName, "2");
      result := S.Success(());
    }

    method CheckAuthentic(r: Request, key: string) returns (result: S.Result<(string, string)>)
      ensures result == S.Authentic(lib, config, key, r.Contents())
    {
      var signature := S.Get(lib, r.header, config.signatureName);
      if signature == "" { return S.Failure(S.HeaderNotFound(config.signatureName)); }
      var nonce := S.Get(lib, r.header, config.nonceName);
      if nonce == "" { return S.Failure(S.HeaderNotFound(config.nonceName)); }
      var timestamp := S.Get(lib, r.header, config.timestampName);
      if timestamp == "" { return S.Failure(S.HeaderNotFound(config.timestampName)); }
      if r.body.Unreadable? { return S.Failure(S.BodyUnreadable); }
      var values := ExtractHeaderValues(r);
      if values.Failure? { return S.Failure(values.error); }
      var mac := ComputeMAC(key, r, timestamp, nonce, values.value);
      match S.CheckMAC(mac, signature)
      case Failure(e) => result := S.Failure(e);
      case Success(_) => result := S.Success((nonce, timestamp));
    }

    method CheckAdmissible(r: Request, key: string, check: int) returns (result: S.Result<(string, int)>)
      ensures result == S.Admissible(lib, config, key, r.Contents(), Unix(check), nonceCache.cacheTTL)
    {
      var authentic := CheckAuthentic(r, key);
      if authentic.Failure? { return S.Failure(authentic.error); }
      var (nonce, timestamp) := authentic.value;
      var t := S.CheckTimestamp(timestamp, Unix(check), nonceCache.cacheTTL);
      result := if t.Failure? then S.Failure(t.error) else S.Success((nonce, t.value));
    }

    /** Each verification is one call of a nonce run. */
    method VerifyRequest(r: Request, key: string, check: int, look: int, again: int, stamp: int, last: int) returns (result: S.Result<()>)
      requires nonceCache.Valid()
      modifies nonceCache.cache.Repr
      ensures nonceCache.Valid() && fresh(nonceCache.cache.Repr - old(nonceCache.cache.Repr))
      ensures S.Handles(lib, config, key, nonceCache.cache.capacity, nonceCache.cacheTTL, old(nonceCache.cache.Contents),
                        old(r.Contents()), check, look, again, stamp, nonceCache.cache.Contents, result)
    {
      var admissible := CheckAdmissible(r, key, check);
      if admissible.Failure? { return S.Failure(admissible.error); }
      var hit := nonceCache.InCache(admissible.value.0, look, again, stamp, last);
      result := if hit then S.Failure(S.NonceSeen) else S.Success(());
    }
  }
}
