/** The Redis-backed auth provider: the commands it issues for each request, and its methods
    over a Redis server. Times and durations are in milliseconds since the Unix epoch. */
module RedisAuth {
  import opened Prelude
  import opened RedisKeys
  import opened RedisStore

  datatype Config = Config(namespace: string, staleRetention: nat, countTtl: nat, revocationTtl: nat, window: nat,
                           maxFailures: nat)

  datatype Error = PolicyRejected | Unavailable

  datatype NonceStatus = Active | Expired | Unknown

  datatype TokenStatus = Valid | Revoked

  datatype Verdict = Allowed | Denied(retryAfter: nat)

  function Max(a: int, b: int): int { if a >= b then a else b }

  /** `record_nonce`'s lifetime, cut to whole seconds. */
  function NonceTtl(cfg: Config, expires: int, now: nat): nat {
    Max((if expires > now then expires - now else 0) + cfg.staleRetention, 1000) / 1000
  }

  /** `ttl_from_expiry_or_default`. */
  function RevocationTtl(cfg: Config, expires: Option<int>, now: nat): nat {
    Max(if expires.Some? && expires.value >= now then expires.value - now else cfg.revocationTtl, 1000) / 1000
  }

  function RecordNonceCmd(cfg: Config, nonce: string, expires: nat, now: nat): Cmd<Key> {
    At(Nonce(nonce), SetEx(Number(expires / 1000), NonceTtl(cfg, expires, now)))
  }

  function AcceptCmd(cfg: Config, user: string, nonce: string, count: nat): Cmd<Key> {
    At(Count(user, nonce), AcceptCount(count, cfg.countTtl / 1000))
  }

  function RevokeCmd(cfg: Config, issuer: Option<string>, token: string, expires: Option<int>, now: nat): Cmd<Key> {
    At(Token(issuer, token), SetEx(Mark, RevocationTtl(cfg, expires, now)))
  }

  function ResultCmd(cfg: Config, key: RateKey, success: bool): Cmd<Key> {
    At(Rate(key), if success then Del else CountFailure(cfg.window / 1000))
  }

  /** Every command some request can issue, and time passing. */
  predicate Issued(cfg: Config, c: Cmd<Key>) {
    match c
    case Tick(_) => true
    case At(Nonce(_), op) => op.Get? || (op.SetEx? && op.v.Number? && op.secs >= 1)
    case At(Count(_, _), op) => op.AcceptCount? && op.secs == cfg.countTtl / 1000
    case At(Token(_, _), op) => op.Exists? || (op.SetEx? && op.v.Mark? && op.secs >= 1)
    case At(Rate(_), op) => op.Get? || op.Ttl? || op.Del? || op == CountFailure(cfg.window / 1000)
  }

  /** Whatever a request asks for, the commands sent for it are of the issued kind, so what
      holds of all runs of issued commands holds of the provider. */
  lemma RequestsIssue(cfg: Config, user: string, nonce: string, count: nat, expires: nat, now: nat,
                      issuer: Option<string>, token: string, until: Option<int>, key: RateKey, success: bool)
    ensures Issued(cfg, RecordNonceCmd(cfg, nonce, expires, now)) && Issued(cfg, At(Nonce(nonce), Get))
    ensures Issued(cfg, AcceptCmd(cfg, user, nonce, count))
    ensures Issued(cfg, RevokeCmd(cfg, issuer, token, until, now)) && Issued(cfg, At(Token(issuer, token), Exists))
    ensures Issued(cfg, At(Rate(key), Get)) && Issued(cfg, At(Rate(key), Ttl))
    ensures Issued(cfg, ResultCmd(cfg, key, success))
  {
    assert NonceTtl(cfg, expires, now) >= 1 && RevocationTtl(cfg, until, now) >= 1;
  }

  predicate AllIssued(cfg: Config, cs: seq<Cmd<Key>>) { forall i :: 0 <= i < |cs| ==> Issued(cfg, cs[i]) }

  /** The verdict `nonce_status` reaches from the record it reads. */
  function StatusOf(slot: Option<Entry>, clock: nat, now: int): Result<NonceStatus, Error> {
    if !Alive(slot, clock) then Ok(Unknown)
    else if slot.value.value.Mark? then Err(Unavailable)
    else if now < 0 then Err(PolicyRejected)
    else if now / 1000 < slot.value.value.n then Ok(Active) else Ok(Expired)
  }

  /** The failures a live counter holds. */
  function Failures(slot: Option<Entry>, clock: nat): nat {
    if Alive(slot, clock) && slot.value.value.Number? then slot.value.value.n else 0
  }

  /** The retry hint from TTL's answer. */
  function RetryAfter(cfg: Config, ttl: int): nat { if ttl > 0 then ttl * 1000 else cfg.window }

  /** What a limiter check answers from its GET and, after whatever others do, its TTL. */
  function AttemptVerdict<K>(cfg: Config, db: Db<K>, others: seq<Cmd<K>>, k: K): Verdict {
    if cfg.maxFailures == 0 then Denied(cfg.window)
    else if Failures(Slot(db, k), db.clock) < cfg.maxFailures then Allowed
    else
      var read := Run(db, others);
      Denied(RetryAfter(cfg, TtlReply(Slot(read, k), read.clock)))
  }

  /** An attempt is allowed exactly below the limit: with no counter as with none, with a counter
      of `n` when `n` failures are still allowed; a limit of zero closes the door. */
  lemma AllowedIff<K>(cfg: Config, db: Db<K>, others: seq<Cmd<K>>, k: K)
    ensures !Live(db, k) ==> (AttemptVerdict(cfg, db, others, k) == Allowed <==> cfg.maxFailures > 0)
    ensures forall n: nat :: Live(db, k) && Slot(db, k).value.value == Number(n) ==>
              (AttemptVerdict(cfg, db, others, k) == Allowed <==> n < cfg.maxFailures)
    ensures cfg.maxFailures == 0 ==> AttemptVerdict(cfg, db, others, k) == Denied(cfg.window)
  {
  }

  /** What a token check answers from its first EXISTS and, after whatever others do, its second. */
  function TokenVerdict<K>(db: Db<K>, others: seq<Cmd<K>>, everywhere: K, own: Option<K>): TokenStatus {
    if Live(db, everywhere) then Revoked
    else if own.Some? && Live(Run(db, others), own.value) then Revoked
    else Valid
  }

  function OwnMark(issuer: Option<string>, token: string): Option<Key> {
    if issuer.Some? then Some(Token(issuer, token)) else None
  }

  /** The server: executes one command at a time. */
  class Redis {
    var db: Db<string>

    constructor (initial: Db<string>)
      ensures db == initial
    {
      db := initial;
    }

    method Send(c: Cmd<string>) returns (reply: Reply)
      modifies this
      ensures (db, reply) == Exec(old(db), c)
      ensures c.At? && (c.op.Get? || c.op.Exists? || c.op.Ttl?) ==> db == old(db)
    {
      var r := Exec(db, c);
      db := r.0;
      return r.1;
    }

    /** What other clients send meanwhile. */
    method Serve(others: seq<Cmd<string>>)
      modifies this
      ensures db == Run(old(db), others)
    {
      ghost var start := db;
      for i := 0 to |others|
        invariant db == Run(start, others[..i])
      {
        assert others[..i + 1][..i] == others[..i];
        var _ := Send(others[i]);
      }
      assert others[..|others|] == others;
    }
  }

  class RedisAuthProvider {
    const config: Config
    const server: Redis

    constructor (config: Config, server: Redis)
      ensures this.config == config && this.server == server
    {
      this.config := config;
      this.server := server;
    }

    function SlotOf(k: Key): Option<Entry>
      reads server
    {
      Slot(server.db, Render(config.namespace, k))
    }

    /** The store after one of the provider's commands. */
    function Sent(db: Db<string>, c: Cmd<Key>): Db<string> { Exec(db, RenderCmd(config.namespace, c)).0 }

    /** A nonce with an expiry before the epoch is refused and nothing is stored. */
    method RecordNonce(nonce: string, expires: int, now: nat) returns (r: Result<bool, Error>)
      modifies server
      ensures expires < 0 ==> r == Err(PolicyRejected) && server.db == old(server.db)
      ensures expires >= 0 ==> r == Ok(true)
      ensures expires >= 0 ==> server.db == Sent(old(server.db), RecordNonceCmd(config, nonce, expires, now))
    {
      hide Render;
      if expires < 0 { return Err(PolicyRejected); }
      var untilExpiry := if expires > now then expires - now else 0;
      var ttl := Max(untilExpiry + config.staleRetention, 1000);
      var _ := server.Send(At(Render(config.namespace, Nonce(nonce)), SetEx(Number(expires / 1000), ttl / 1000)));
      return Ok(true);
    }

    method NonceStatus(nonce: string, now: int) returns (r: Result<NonceStatus, Error>)
      modifies server
      ensures server.db == old(server.db)
      ensures r == StatusOf(SlotOf(Nonce(nonce)), server.db.clock, now)
      ensures var slot := SlotOf(Nonce(nonce));
              if !Alive(slot, server.db.clock) then r == Ok(Unknown)
              else if slot.value.value.Mark? then r == Err(Unavailable)
              else r == if now < 0 then Err(PolicyRejected)
                        else Ok(if now < slot.value.value.n * 1000 then Active else Expired)
    {
      hide Render;
      var reply := server.Send(At(Render(config.namespace, Nonce(nonce)), Get));
      match reply
      case Nil => return Ok(Unknown);
      case Found(Number(expiresUnix)) =>
        if now < 0 { return Err(PolicyRejected); }
        return Ok(if now / 1000 < expiresUnix then Active else Expired);
      case _ => return Err(Unavailable);
    }

    /** False exactly when a live count is as high, and otherwise true, the count being stored; a
        lifetime under a second, which Redis refuses, stores nothing. */
    method AcceptNonceCount(user: string, nonce: string, count: nat) returns (r: Result<bool, Error>)
      modifies server
      ensures server.db == Sent(old(server.db), AcceptCmd(config, user, nonce, count))
      ensures var answer := Exec(old(server.db), RenderCmd(config.namespace, AcceptCmd(config, user, nonce, count))).1;
              r == (if answer.Flag? then Ok(answer.b) else Err(Unavailable))
      ensures var was, live := old(SlotOf(Count(user, nonce))), old(Alive(SlotOf(Count(user, nonce)), server.db.clock));
              r == if live && was.value.value.Mark? then Err(Unavailable)
                   else if live && was.value.value.n >= count then Ok(false)
                   else if config.countTtl < 1000 then Err(Unavailable)
                   else Ok(true)
      ensures r == Ok(true) ==>
                SlotOf(Count(user, nonce)) == Timed(Number(count), config.countTtl / 1000, server.db.clock)
      ensures r != Ok(true) ==> server.db == old(server.db)
    {
      hide Render;
      var key := Render(config.namespace, Count(user, nonce));
      var reply := server.Send(At(key, AcceptCount(count, config.countTtl / 1000)));
      return if reply.Flag? then Ok(reply.b) else Err(Unavailable);
    }

    method RevokeToken(issuer: Option<string>, token: string, expires: Option<int>, now: nat)
      returns (r: Result<bool, Error>)
      modifies server
      ensures r == Ok(true)
      ensures server.db == Sent(old(server.db), RevokeCmd(config, issuer, token, expires, now))
      ensures Alive(SlotOf(Token(issuer, token)), server.db.clock)
    {
      hide Render;
      var ttl := if expires.Some? && expires.value >= now then expires.value - now else config.revocationTtl;
      var _ := server.Send(At(Render(config.namespace, Token(issuer, token)), SetEx(Mark, Max(ttl, 1000) / 1000)));
      return Ok(true);
    }

    /** Revoked exactly when the global mark is live at the first read or, with whatever other
        clients do in between, the issuer's own mark at the second. */
    method CheckToken(issuer: Option<string>, token: string, others: seq<Cmd<string>>) returns (r: TokenStatus)
      modifies server
      ensures var everywhere := Render(config.namespace, Token(None, token));
              var own := if issuer.Some? then Some(Render(config.namespace, Token(issuer, token))) else None;
              && r == TokenVerdict(old(server.db), others, everywhere, own)
              && server.db == if Live(old(server.db), everywhere) || issuer.None? then old(server.db)
                              else Run(old(server.db), others)
    {
      hide Render;
      var everywhere := server.Send(At(Render(config.namespace, Token(None, token)), Exists));
      if everywhere == Flag(true) { return Revoked; }
      if issuer.Some? {
        server.Serve(others);
        var here := server.Send(At(Render(config.namespace, Token(issuer, token)), Exists));
        if here == Flag(true) { return Revoked; }
      }
      return Valid;
    }

    /** Allowed exactly while fewer failures are on record than the limit; a denial's hint is
        what TTL finds after whatever other clients do in between. */
    method CheckAuthAttempt(key: RateKey, others: seq<Cmd<string>>) returns (r: Result<Verdict, Error>)
      modifies server
      ensures r.Err? ==> config.maxFailures > 0 && old(SlotOf(Rate(key)).Some? && SlotOf(Rate(key)).value.value.Mark?)
      ensures r.Ok? ==> r.value == AttemptVerdict(config, old(server.db), others, Render(config.namespace, Rate(key)))
      ensures server.db == if r.Ok? && r.value.Denied? && config.maxFailures > 0
                           then Run(old(server.db), others) else old(server.db)
    {
      hide Render;
      if config.maxFailures == 0 { return Ok(Denied(config.window)); }
      var count := server.Send(At(Render(config.namespace, Rate(key)), Get));
      if count.Found? && count.v.Mark? { return Err(Unavailable); }
      if (if count.Found? then count.v.n else 0) < config.maxFailures { return Ok(Allowed); }
      server.Serve(others);
      var ttl := server.Send(At(Render(config.namespace, Rate(key)), Ttl));
      return Ok(Denied(RetryAfter(config, ttl.i)));
    }

    /** A success clears the counter. A failure adds one to a live counter and leaves its expiry
        alone; the first failure opens a window. */
    method RecordAuthResult(key: RateKey, success: bool)
      modifies server
      ensures server.db == Sent(old(server.db), ResultCmd(config, key, success))
      ensures success ==> SlotOf(Rate(key)).None?
      ensures !success && old(Failures(SlotOf(Rate(key)), server.db.clock)) > 0 ==>
                SlotOf(Rate(key)) == Some(Entry(Number(old(Failures(SlotOf(Rate(key)), server.db.clock)) + 1),
                                                old(SlotOf(Rate(key))).value.expiry))
      ensures !success && !old(Alive(SlotOf(Rate(key)), server.db.clock)) && config.window >= 1000 ==>
                SlotOf(Rate(key)) == Timed(Number(1), config.window / 1000, server.db.clock)
    {
      hide Render;
      if success {
        var _ := server.Send(At(Render(config.namespace, Rate(key)), Del));
      } else {
        var _ := server.Send(At(Render(config.namespace, Rate(key)), CountFailure(config.window / 1000)));
      }
    }
  }
}
