/**
 * The store-facing logic of the three handlers in internal/server/handlers.go
 * with HTTP parsing and page rendering removed: publish a secret, peek at a
 * link without consuming it, and consume it. Each handler is a method on the
 * shared `Store`, proved against a pure function that gives its outcome and
 * the records it leaves behind; the lifecycle facts are lemmas about those
 * functions.
 */
module Handlers {
  import opened Wrappers
  import opened Text
  import opened Ttl
  import opened PathEscape
  import opened Fernet
  import opened Token
  import opened Redis

  /** The page a handler ends on; `ServerError` is a 500 status. */
  datatype Outcome = NotFound | ServerError | Confirm(link: string) | Preview | Show(secret: string)

  /** What `newSetPasswordHandler` is built with: the link settings and the Redis key prefix. */
  datatype Settings = Settings(link: LinkConfig, keyPrefix: string)

  lemma HexIsUnreserved(key: string)
    requires forall i :: 0 <= i < |key| ==> IsLowerHexDigit(key[i])
    ensures forall i :: 0 <= i < |key| ==> Unreserved(key[i])
    ensures IsByteString(key) && Escape(key) == key
    ensures Separator !in key && '/' !in key
  {
    EscapeUnreserved(key);
  }

  /** The token of handlers.go:89: the id and the path-escaped key, joined by the separator. */
  function LinkToken(id: string, key: string): (t: string)
    requires forall i :: 0 <= i < |key| ==> IsLowerHexDigit(key[i])
    ensures t == id + [Separator] + key
  {
    HexIsUnreserved(key);
    assert Join([key], Separator) == key;
    JoinToken(id, Escape(key))
  }

  // ---------------------------------------------------------------- publish

  /** The page `newSetPasswordHandler` ends on. */
  function PublishOutcome(s: Settings, secret: string, ttl: string, entropy: Option<KeyBytes>,
                          uuid: string, requestHost: string, net: Network): (o: Outcome)
    ensures o == NotFound <==> TtlSeconds(ttl).None?
    ensures o.Confirm? <==> TtlSeconds(ttl).Some? && entropy.Some? && Answers(net)
    ensures o == NotFound || o == ServerError || o.Confirm?
  {
    if TtlSeconds(ttl).None? then NotFound
    else
      match Encrypt(secret, entropy)
      case Failure(_) => ServerError
      case Success(e) =>
        if !Answers(net) then ServerError
        else Confirm(Link(s.link, requestHost, LinkToken(s.keyPrefix + uuid, e.key)))
  }

  /** The records after `newSetPasswordHandler`: one more under `keyPrefix + uuid` once `SET` reaches Redis. */
  function AfterPublish(records: map<string, Entry>, now: nat, s: Settings, secret: string, ttl: string,
                        entropy: Option<KeyBytes>, uuid: string, net: Network): (r: map<string, Entry>)
    ensures forall id :: id in records && id != s.keyPrefix + uuid ==> id in r && r[id] == records[id]
  {
    match TtlSeconds(ttl)
    case None => records
    case Some(seconds) =>
      match Encrypt(secret, entropy)
      case Failure(_) => records
      case Success(e) =>
        if net == Unreachable then records
        else records[s.keyPrefix + uuid := Entry(e.token, Deadline(now, seconds))]
  }

  /**
   * `newSetPasswordHandler` (handlers.go:39-96): an unknown TTL ends on the
   * not-found page before anything is encrypted or stored; a failed
   * encryption or a failed `SET` is a server error; otherwise the page shows
   * the link whose last segment is the token.
   */
  method Publish(db: Store, s: Settings, secret: string, ttl: string, entropy: Option<KeyBytes>,
                 uuid: string, requestHost: string, net: Network) returns (o: Outcome)
    requires db.Valid()
    modifies db
    ensures db.Valid() && db.now == old(db.now)
    ensures o == PublishOutcome(s, secret, ttl, entropy, uuid, requestHost, net)
    ensures db.records == AfterPublish(old(db.records), old(db.now), s, secret, ttl, entropy, uuid, net)
  {
    var seconds := TtlSeconds(ttl);
    if seconds.None? {
      return NotFound;
    }
    var encrypted := Encrypt(secret, entropy);
    if encrypted.Failure? {
      return ServerError;
    }
    var id := s.keyPrefix + uuid;
    var ok := db.Set(id, encrypted.value.token, seconds.value, net);
    if !ok {
      return ServerError;
    }
    var token := LinkToken(id, encrypted.value.key);
    o := Confirm(Link(s.link, requestHost, token));
  }

  // ------------------------------------------------------------------- peek

  /** The page `showConfirmationHandler` ends on. */
  function PeekOutcome(records: map<string, Entry>, token: string, net: Network): (o: Outcome)
    ensures o == Preview ==> SplitToken(token).Success? && SplitToken(token).value.id in records
    ensures o == NotFound || o == ServerError || o == Preview
  {
    match SplitToken(token)
    case Failure(_) => NotFound
    case Success(p) =>
      if !Answers(net) then ServerError
      else if p.id in records then Preview
      else NotFound
  }

  /**
   * `showConfirmationHandler` (handlers.go:100-132): a malformed token or a
   * missing id is not-found, a failed `EXISTS` a server error, and otherwise
   * the preview page; the store is only read.
   */
  method Peek(db: Store, token: string, net: Network) returns (o: Outcome)
    requires db.Valid()
    ensures o == PeekOutcome(db.records, token, net)
  {
    var parts := SplitToken(token);
    if parts.Failure? {
      return NotFound;
    }
    var count := db.Exists(parts.value.id, net);
    if count.Err? || count.Nil? {
      return ServerError;
    }
    if count.value == 0 {
      return NotFound;
    }
    o := Preview;
  }

  // ---------------------------------------------------------------- consume

  /** The page `getPasswordHandler` ends on. */
  function ConsumeOutcome(records: map<string, Entry>, token: string, net: Network): (o: Outcome)
    ensures o.Show? ==> o.secret != "" && SplitToken(token).Success? && SplitToken(token).value.id in records
    ensures o == NotFound || o == ServerError || o.Show?
  {
    match SplitToken(token)
    case Failure(_) => NotFound
    case Success(p) =>
      if !Answers(net) then ServerError
      else if net == Retried || p.id !in records then NotFound
      else
        match Decrypt(records[p.id].value, UnescapeOrEmpty(p.key))
        case Failure(_) => ServerError
        case Success(m) => Show(m)
  }

  /** The records after `getPasswordHandler`: the id is gone once `GETDEL` reaches Redis. */
  function AfterConsume(records: map<string, Entry>, token: string, net: Network): (r: map<string, Entry>)
    ensures forall id :: id in r ==> id in records && r[id] == records[id]
    ensures records.Keys - r.Keys <= if SplitToken(token).Success? then {SplitToken(token).value.id} else {}
  {
    match SplitToken(token)
    case Failure(_) => records
    case Success(p) => if net == Unreachable then records else records - {p.id}
  }

  /**
   * `getPasswordHandler` (handlers.go:135-180): a malformed token is
   * not-found and touches nothing; otherwise the record is read and removed
   * in one step before decryption is tried, `redis.Nil` is not-found (also
   * when it answers a retried `GETDEL` whose first attempt removed the record),
   * and a store error or a failed decryption is a server error.
   */
  method Consume(db: Store, token: string, net: Network) returns (o: Outcome)
    requires db.Valid()
    modifies db
    ensures db.Valid() && db.now == old(db.now)
    ensures o == ConsumeOutcome(old(db.records), token, net)
    ensures db.records == AfterConsume(old(db.records), token, net)
  {
    var parts := SplitToken(token);
    if parts.Failure? {
      return NotFound;
    }
    var id := parts.value.id;
    var key := UnescapeOrEmpty(parts.value.key);
    var reply := db.GetDel(id, net);
    match reply
    case Nil =>
      return NotFound;
    case Err =>
      return ServerError;
    case Value(stored) =>
      var plain := Decrypt(stored, key);
      if plain.Failure? {
        return ServerError;
      }
      o := Show(plain.value);
  }
}
