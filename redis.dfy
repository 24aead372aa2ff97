/**
 * The Redis database the handlers talk to, as an in-memory map from key to
 * stored value with an optional expiry deadline on an abstract clock. The
 * network between the server and Redis is a parameter of every command.
 */
module Redis {
  import opened Wrappers
  import opened Fernet

  /**
   * What happens to one command on its way to Redis and back: the command and
   * its reply get through (`Healthy`); the command is lost (`Unreachable`); the
   * command is applied and its reply lost, which the client reports as an
   * error (`ReplyLost`); or the command is applied, its reply lost, and the
   * client's automatic retry (go-redis re-sends a command whose read timed out
   * or hit end of file) applies it a second time and returns that reply
   * (`Retried`).
   */
  datatype Network = Healthy | Unreachable | ReplyLost | Retried

  /** The client hands back an answer from Redis rather than an error. */
  predicate Answers(net: Network) {
    net == Healthy || net == Retried
  }

  /** A stored value and, when it has a time-to-live, the clock reading at which it expires. */
  datatype Entry = Entry(value: Ciphertext, expiresAt: Option<nat>)

  /** What the client hands back: the value, `redis.Nil` for a missing key, or another error. */
  datatype Reply<T> = Value(value: T) | Nil | Err

  /** go-redis: a zero expiration means the key never expires. */
  function Deadline(now: nat, ttl: nat): Option<nat> {
    if ttl == 0 then None else Some(now + ttl)
  }

  predicate Live(e: Entry, now: nat) {
    e.expiresAt.None? || now < e.expiresAt.value
  }

  /** The records that are still live at `now`. */
  function Unexpired(records: map<string, Entry>, now: nat): map<string, Entry> {
    map id | id in records && Live(records[id], now) :: records[id]
  }

  /**
   * Expiry composes: dropping what is dead at `t1` and then what is dead at a
   * later `t2` is the same as dropping what is dead at `t2`, so advancing the
   * clock twice equals advancing it once by the sum.
   */
  lemma UnexpiredCompose(records: map<string, Entry>, t1: nat, t2: nat)
    requires t1 <= t2
    ensures Unexpired(Unexpired(records, t1), t2) == Unexpired(records, t2)
  {
    var a, b := Unexpired(Unexpired(records, t1), t2), Unexpired(records, t2);
    forall id | id in b ensures id in a {
      assert Live(records[id], t1);
    }
    assert a.Keys == b.Keys;
  }

  class Store {
    var records: map<string, Entry>
    var now: nat

    /** Redis never shows a key whose deadline has passed. */
    ghost predicate Valid()
      reads this
    {
      forall id :: id in records ==> Live(records[id], now)
    }

    constructor ()
      ensures Valid() && records == map[] && now == 0
    {
      records := map[];
      now := 0;
    }

    /** `SET id value EX ttl`: overwrites any previous value under `id`; applying it twice is applying it once. */
    method Set(id: string, value: Ciphertext, ttl: nat, net: Network) returns (ok: bool)
      requires Valid()
      modifies this
      ensures Valid() && now == old(now)
      ensures ok <==> Answers(net)
      ensures records == if net == Unreachable then old(records)
                         else old(records)[id := Entry(value, Deadline(now, ttl))]
    {
      if net != Unreachable {
        records := records[id := Entry(value, Deadline(now, ttl))];
      }
      ok := Answers(net);
    }

    /** `EXISTS id`: the number of the given keys that exist; it changes nothing. */
    method Exists(id: string, net: Network) returns (r: Reply<nat>)
      ensures !Answers(net) ==> r == Err
      ensures Answers(net) ==> r.Value? && (r.value == 1 <==> id in records) && r.value <= 1
    {
      if !Answers(net) {
        return Err;
      }
      r := Value(if id in records then 1 else 0);
    }

    /**
     * `GETDEL id`: read and remove in one atomic step. A retried `GETDEL`
     * finds the key that its first attempt removed already gone.
     */
    method GetDel(id: string, net: Network) returns (r: Reply<Ciphertext>)
      requires Valid()
      modifies this
      ensures Valid() && now == old(now)
      ensures records == if net == Unreachable then old(records) else old(records) - {id}
      ensures r == if !Answers(net) then Err
                   else if net == Healthy && id in old(records) then Value(old(records)[id].value)
                   else Nil
    {
      var found := id in records;
      var stored := if found then Some(records[id].value) else None;
      if net != Unreachable {
        records := records - {id};
      }
      if !Answers(net) {
        return Err;
      }
      if net == Retried {
        // The retry runs against the store its first attempt already changed.
        assert id !in records;
        stored := None;
      }
      r := if stored.Some? then Value(stored.value) else Nil;
    }

    /** Time passes: every record whose deadline is reached disappears. */
    method Advance(seconds: nat)
      requires Valid()
      modifies this
      ensures Valid()
      ensures now == old(now) + seconds
      ensures records == Unexpired(old(records), now)
    {
      now := now + seconds;
      records := Unexpired(records, now);
    }
  }
}
