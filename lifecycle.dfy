/**
 * What the handlers promise together about one secret: the link that
 * publish returns peeks and consumes the secret, consuming is at most once,
 * a record that leaves the store never comes back except through another
 * publish of the same id, and time-to-live expiry ends it like a consume.
 */
module Lifecycle {
  import opened Wrappers
  import opened Text
  import opened Ttl
  import opened PathEscape
  import opened Fernet
  import opened Token
  import opened Redis
  import opened Handlers

  /** The token that publish puts in the link parses back into the store id and the key text. */
  lemma PublishedTokenParses(id: string, k: KeyBytes)
    requires Separator !in id
    ensures SplitToken(LinkToken(id, EncodeKey(k))) == Success(TokenParts(id, EncodeKey(k)))
    ensures UnescapeOrEmpty(EncodeKey(k)) == EncodeKey(k)
  {
    var key := EncodeKey(k);
    HexIsUnreserved(key);
    TokenRoundTrip(id, key);
    UnescapeEscape(key);
  }

  /**
   * The whole life of a secret: publish succeeds; the last segment of its link
   * is a token whose peek shows the preview; the first consume shows the
   * secret (an empty secret cannot be shown, since decryption treats an empty
   * message as a failure); a second consume is not-found.
   */
  lemma PublishThenConsume(records: map<string, Entry>, now: nat, s: Settings, secret: string,
                           ttl: string, k: KeyBytes, uuid: string, requestHost: string)
    requires TtlSeconds(ttl).Some?
    requires Separator !in s.keyPrefix + uuid && '/' !in s.keyPrefix + uuid
    ensures PublishOutcome(s, secret, ttl, Some(k), uuid, requestHost, Healthy).Confirm?
    ensures var t := LastSegment(PublishOutcome(s, secret, ttl, Some(k), uuid, requestHost, Healthy).link);
            var stored := AfterPublish(records, now, s, secret, ttl, Some(k), uuid, Healthy);
            && PeekOutcome(stored, t, Healthy) == Preview
            && ConsumeOutcome(stored, t, Healthy) == (if secret == "" then ServerError else Show(secret))
            && ConsumeOutcome(AfterConsume(stored, t, Healthy), t, Healthy) == NotFound
  {
    var id, key := s.keyPrefix + uuid, EncodeKey(k);
    HexIsUnreserved(key);
    var t := LinkToken(id, key);
    assert Join([key], Separator) == key;
    assert t == id + [Separator] + key;
    LinkShape(s.link, requestHost, t);
    PublishedTokenParses(id, k);
    EncryptDecrypt(secret, k);
  }

  /**
   * If the key prefix or the uuid holds the separator, the published token
   * never parses: every consume of it is not-found and leaves the record in
   * place until it expires.
   */
  lemma SeparatorInIdStrandsSecret(records: map<string, Entry>, now: nat, s: Settings, secret: string,
                                   ttl: string, k: KeyBytes, uuid: string, net: Network)
    requires TtlSeconds(ttl).Some?
    requires Separator in s.keyPrefix + uuid
    ensures var t := LinkToken(s.keyPrefix + uuid, EncodeKey(k));
            var stored := AfterPublish(records, now, s, secret, ttl, Some(k), uuid, Healthy);
            && s.keyPrefix + uuid in stored
            && ConsumeOutcome(stored, t, net) == NotFound
            && PeekOutcome(stored, t, net) == NotFound
            && AfterConsume(stored, t, net) == stored
  {
    var key := EncodeKey(k);
    HexIsUnreserved(key);
    SeparatorInPartBreaksToken(s.keyPrefix + uuid, key);
  }

  /**
   * Consume shows a message exactly when the token parses, Redis answers the
   * first attempt, the id holds a ciphertext sealed under the key the token
   * carries, and the sealed message is not empty; the message shown is the
   * sealed one.
   */
  lemma ConsumeShows(records: map<string, Entry>, token: string, net: Network, m: string)
    ensures ConsumeOutcome(records, token, net) == Show(m) <==>
              && SplitToken(token).Success?
              && net == Healthy
              && var p := SplitToken(token).value;
              && p.id in records
              && records[p.id].value.Sealed?
              && records[p.id].value.message == m
              && m != ""
              && DecodeKey(UnescapeOrEmpty(p.key)) == Some(records[p.id].value.key)
  {
    if SplitToken(token).Success? && SplitToken(token).value.id in records {
      var p := SplitToken(token).value;
      DecryptSucceeds(records[p.id].value, UnescapeOrEmpty(p.key));
    }
  }

  /**
   * Once `GETDEL` has reached Redis the record is gone, whatever decryption
   * then does: a present record that cannot be decrypted (a corrupted
   * ciphertext, a wrong key, a key part that fails to unescape) ends on a
   * server error and is lost. On a healthy network a stored record is never
   * reported as not-found; a retried `GETDEL` is, because its first attempt
   * already removed the record, so consuming is not idempotent under retries.
   */
  lemma ConsumeLosesRecord(records: map<string, Entry>, token: string, net: Network)
    requires SplitToken(token).Success? && net != Unreachable
    ensures var id := SplitToken(token).value.id;
            && AfterConsume(records, token, net) == records - {id}
            && (id in records && net == Healthy ==> ConsumeOutcome(records, token, net) != NotFound)
            && (net == Retried ==> ConsumeOutcome(records, token, net) == NotFound)
            && ((id in records && net != Retried
                 && Decrypt(records[id].value, UnescapeOrEmpty(SplitToken(token).value.key)).Failure?)
                ==> ConsumeOutcome(records, token, net) == ServerError)
  {
  }

  /** A key part with a bad percent escape decrypts nothing: consuming with it destroys the record. */
  lemma BadEscapeDestroysSecret(records: map<string, Entry>, token: string)
    requires SplitToken(token).Success? && Unescape(SplitToken(token).value.key).None?
    requires SplitToken(token).value.id in records
    ensures ConsumeOutcome(records, token, Healthy) == ServerError
    ensures SplitToken(token).value.id !in AfterConsume(records, token, Healthy)
  {
    assert UnescapeOrEmpty(SplitToken(token).value.key) == "";
    assert DecodeKey("").None?;
  }

  /**
   * Peek and consume see the same thing: on a healthy network peek shows the
   * preview exactly when consume would find a record; not-found from either
   * does not say whether the id never existed, expired or was consumed.
   */
  lemma PeekAgreesWithConsume(records: map<string, Entry>, token: string)
    ensures PeekOutcome(records, token, Healthy) == Preview <==>
              ConsumeOutcome(records, token, Healthy) != NotFound
    ensures PeekOutcome(records, token, Healthy) in {Preview, NotFound}
  {
  }

  /**
   * The error paths of peek and consume: a malformed token is not-found on
   * every network, before Redis is asked; with a well-formed token, a failed
   * `EXISTS` or a `GETDEL` error other than `redis.Nil` is a server error.
   * A retried `EXISTS` answers as a healthy one, a retried `GETDEL` with
   * `redis.Nil`.
   */
  lemma ErrorPaths(records: map<string, Entry>, token: string, net: Network)
    ensures SplitToken(token).Failure? ==>
              && PeekOutcome(records, token, net) == NotFound
              && ConsumeOutcome(records, token, net) == NotFound
              && AfterConsume(records, token, net) == records
    ensures SplitToken(token).Success? && !Answers(net) ==>
              && PeekOutcome(records, token, net) == ServerError
              && ConsumeOutcome(records, token, net) == ServerError
    ensures SplitToken(token).Success? && net == Retried ==>
              && PeekOutcome(records, token, net) == PeekOutcome(records, token, Healthy)
              && ConsumeOutcome(records, token, net) == NotFound
  {
  }

  /** Consuming the same token over and over, one request after another. */
  function ConsumeRepeatedly(records: map<string, Entry>, token: string, nets: seq<Network>): (outs: seq<Outcome>)
    ensures |outs| == |nets|
  {
    if nets == [] then []
    else [ConsumeOutcome(records, token, nets[0])] + ConsumeRepeatedly(AfterConsume(records, token, nets[0]), token, nets[1..])
  }

  function CountShown(outs: seq<Outcome>): nat {
    if outs == [] then 0 else (if outs[0].Show? then 1 else 0) + CountShown(outs[1..])
  }

  /** A token whose id is not stored shows nothing, however often it is consumed. */
  lemma {:induction false} NothingShownWhenAbsent(records: map<string, Entry>, token: string, nets: seq<Network>)
    requires SplitToken(token).Failure? || SplitToken(token).value.id !in records
    ensures CountShown(ConsumeRepeatedly(records, token, nets)) == 0
    ensures forall i :: 0 <= i < |nets| && Answers(nets[i]) ==> ConsumeRepeatedly(records, token, nets)[i] == NotFound
  {
    if nets != [] {
      var after := AfterConsume(records, token, nets[0]);
      NothingShownWhenAbsent(after, token, nets[1..]);
      var outs := ConsumeRepeatedly(records, token, nets);
      assert outs[1..] == ConsumeRepeatedly(after, token, nets[1..]);
    }
  }

  /** Of any number of consumes of one token, at most one shows the secret: concurrent consumes are serialized by the atomic `GETDEL`. */
  lemma {:induction false} AtMostOneShown(records: map<string, Entry>, token: string, nets: seq<Network>)
    ensures CountShown(ConsumeRepeatedly(records, token, nets)) <= 1
  {
    if nets != [] {
      var after := AfterConsume(records, token, nets[0]);
      var outs := ConsumeRepeatedly(records, token, nets);
      assert outs[1..] == ConsumeRepeatedly(after, token, nets[1..]);
      if outs[0].Show? {
        NothingShownWhenAbsent(after, token, nets[1..]);
      } else {
        AtMostOneShown(after, token, nets[1..]);
      }
    }
  }

  /** When the first consume shows the secret, every later consume that Redis answers is not-found. */
  lemma {:induction false} OneWinner(records: map<string, Entry>, token: string, nets: seq<Network>)
    requires |nets| >= 1 && ConsumeOutcome(records, token, nets[0]).Show?
    ensures CountShown(ConsumeRepeatedly(records, token, nets)) == 1
    ensures forall i :: 1 <= i < |nets| && Answers(nets[i]) ==> ConsumeRepeatedly(records, token, nets)[i] == NotFound
  {
    var after := AfterConsume(records, token, nets[0]);
    var outs := ConsumeRepeatedly(records, token, nets);
    assert outs[1..] == ConsumeRepeatedly(after, token, nets[1..]);
    NothingShownWhenAbsent(after, token, nets[1..]);
  }

  /** Consuming several tokens one after another, the `i`-th over network `nets[i]`. */
  function ConsumeMany(records: map<string, Entry>, tokens: seq<string>, nets: seq<Network>): (outs: seq<Outcome>)
    requires |tokens| == |nets|
    ensures |outs| == |nets|
  {
    if nets == [] then []
    else [ConsumeOutcome(records, tokens[0], nets[0])] + ConsumeMany(AfterConsume(records, tokens[0], nets[0]), tokens[1..], nets[1..])
  }

  /** Every token that parses names `id`. */
  predicate AllName(tokens: seq<string>, id: string) {
    forall i :: 0 <= i < |tokens| && SplitToken(tokens[i]).Success? ==> SplitToken(tokens[i]).value.id == id
  }

  /** No token naming an id that is not stored shows anything, whatever key part it carries. */
  lemma {:induction false} AbsentIdMany(records: map<string, Entry>, id: string, tokens: seq<string>, nets: seq<Network>)
    requires |tokens| == |nets| && AllName(tokens, id) && id !in records
    ensures CountShown(ConsumeMany(records, tokens, nets)) == 0
  {
    if nets != [] {
      var after := AfterConsume(records, tokens[0], nets[0]);
      var outs := ConsumeMany(records, tokens, nets);
      assert outs[1..] == ConsumeMany(after, tokens[1..], nets[1..]);
      assert AllName(tokens[1..], id) by {
        forall i | 0 <= i < |tokens| - 1 ensures tokens[1..][i] == tokens[i + 1] { }
      }
      AbsentIdMany(after, id, tokens[1..], nets[1..]);
    }
  }

  /**
   * At most once per id: of any sequence of consumes whose tokens all name
   * the same id, at most one shows the secret, even when the tokens carry
   * different texts of the key.
   */
  lemma {:induction false} AtMostOnePerId(records: map<string, Entry>, id: string, tokens: seq<string>, nets: seq<Network>)
    requires |tokens| == |nets| && AllName(tokens, id)
    ensures CountShown(ConsumeMany(records, tokens, nets)) <= 1
  {
    if nets != [] {
      var after := AfterConsume(records, tokens[0], nets[0]);
      var outs := ConsumeMany(records, tokens, nets);
      assert outs[1..] == ConsumeMany(after, tokens[1..], nets[1..]);
      assert AllName(tokens[1..], id) by {
        forall i | 0 <= i < |tokens| - 1 ensures tokens[1..][i] == tokens[i + 1] { }
      }
      if outs[0].Show? {
        assert SplitToken(tokens[0]).Success?;
        AbsentIdMany(after, id, tokens[1..], nets[1..]);
      } else {
        AtMostOnePerId(after, id, tokens[1..], nets[1..]);
      }
    }
  }

  /**
   * A published record lives exactly as long as its TTL: after `elapsed`
   * seconds it is still stored when `elapsed` is less than the TTL's seconds,
   * and expired otherwise.
   */
  lemma PublishedRecordExpires(records: map<string, Entry>, now: nat, s: Settings, secret: string,
                               ttl: string, k: KeyBytes, uuid: string, net: Network, elapsed: nat)
    requires TtlSeconds(ttl).Some? && net != Unreachable
    ensures var stored := AfterPublish(records, now, s, secret, ttl, Some(k), uuid, net);
            && s.keyPrefix + uuid in stored
            && (s.keyPrefix + uuid in Unexpired(stored, now + elapsed) <==> elapsed < TtlSeconds(ttl).value)
  {
  }

  /**
   * The per-id lifecycle absent, stored, then consumed or expired: consume
   * and expiry only ever remove records, an unknown TTL or a failed
   * encryption adds none, and publish adds at most the one id it built.
   */
  lemma OnlyPublishStores(records: map<string, Entry>, now: nat, s: Settings, secret: string, ttl: string,
                          entropy: Option<KeyBytes>, uuid: string, requestHost: string, token: string, net: Network)
    ensures AfterConsume(records, token, net).Keys <= records.Keys
    ensures Unexpired(records, now).Keys <= records.Keys
    ensures AfterPublish(records, now, s, secret, ttl, entropy, uuid, net).Keys <= records.Keys + {s.keyPrefix + uuid}
    ensures TtlSeconds(ttl).None? || entropy.None? ==>
              AfterPublish(records, now, s, secret, ttl, entropy, uuid, net) == records
              && PublishOutcome(s, secret, ttl, entropy, uuid, requestHost, net) in {NotFound, ServerError}
  {
  }

  /** Publish, peek and consume twice against a fresh store, with every request reaching Redis. */
  method SecretLifecycle(s: Settings, secret: string, k: KeyBytes, uuid: string, requestHost: string)
    returns (published: Outcome, preview: Outcome, first: Outcome, second: Outcome)
    requires Separator !in s.keyPrefix + uuid && '/' !in s.keyPrefix + uuid
    ensures published.Confirm? && preview == Preview
    ensures first == if secret == "" then ServerError else Show(secret)
    ensures second == NotFound
  {
    var db := new Store();
    TtlLabels();
    PublishThenConsume(db.records, db.now, s, secret, "day", k, uuid, requestHost);
    published := Publish(db, s, secret, "day", Some(k), uuid, requestHost, Healthy);
    var token := LastSegment(published.link);
    preview := Peek(db, token, Healthy);
    first := Consume(db, token, Healthy);
    second := Consume(db, token, Healthy);
  }

  /** Publish for an hour: a peek just before the hour is up shows the preview, a consume at the hour is not-found. */
  method SecretExpires(s: Settings, secret: string, k: KeyBytes, uuid: string, requestHost: string)
    returns (preview: Outcome, late: Outcome)
    requires Separator !in s.keyPrefix + uuid && '/' !in s.keyPrefix + uuid
    ensures preview == Preview && late == NotFound
  {
    var db := new Store();
    TtlLabels();
    PublishThenConsume(db.records, db.now, s, secret, "hour", k, uuid, requestHost);
    var published := Publish(db, s, secret, "hour", Some(k), uuid, requestHost, Healthy);
    var token := LastSegment(published.link);
    var id := s.keyPrefix + uuid;
    PublishedRecordExpires(map[], 0, s, secret, "hour", k, uuid, Healthy, 3599);
    db.Advance(3599);
    preview := Peek(db, token, Healthy);
    PublishedRecordExpires(map[], 0, s, secret, "hour", k, uuid, Healthy, 3600);
    db.Advance(1);
    late := Consume(db, token, Healthy);
  }
}
