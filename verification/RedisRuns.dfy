/** What the provider promises about digest nonces, over every sequence of commands that the
    nodes of a cluster send, interleaved in any way. */
module NonceRuns {
  import opened Prelude
  import opened RedisKeys
  import opened RedisStore
  import opened RedisAuth

  /** Command `i` of the run is the acceptance of `count`. */
  ghost predicate Accepts(cfg: Config, db: Db<Key>, cs: seq<Cmd<Key>>, i: nat, user: string, nonce: string,
                          count: nat) {
    i < |cs| && cs[i] == AcceptCmd(cfg, user, nonce, count) && Answer(db, cs, i) == Flag(true)
  }

  /** For as long as the count's lifetime lasts, its record holds it or a later one. */
  lemma {:induction false} CountKept(cfg: Config, db: Db<Key>, cs: seq<Cmd<Key>>, user: string, nonce: string, i: nat,
                                     j: nat, count: nat)
    requires AllIssued(cfg, cs) && Accepts(cfg, db, cs, i, user, nonce, count) && i < j <= |cs|
    requires Before(db, cs, j).clock <= Before(db, cs, i).clock + cfg.countTtl / 1000 * 1000
    ensures HoldsCount(Slot(Before(db, cs, j), Count(user, nonce)), count,
                       Before(db, cs, i).clock + cfg.countTtl / 1000 * 1000)
  {
    hide Apply, Before;
    var before, c := Before(db, cs, j - 1), cs[j - 1];
    var slot := Slot(before, Count(user, nonce));
    NextState(db, cs, j - 1);
    ClockAdvances(db, cs, i, j - 1);
    ClockAdvances(db, cs, j - 1, j);
    assert Issued(cfg, c);
    if i < j - 1 {
      CountKept(cfg, db, cs, user, nonce, i, j - 1, count);
      if c.At? && c.k == Count(user, nonce) { AcceptKeeps(slot, before.clock, c.op, count, Before(db, cs, i).clock); }
    } else {
      AcceptStores(slot, before.clock, c.op);
    }
  }

  predicate HoldsCount(slot: Option<Entry>, count: nat, until: nat) {
    && slot.Some? && slot.value.value.Number? && slot.value.expiry.Some?
    && slot.value.value.n >= count && slot.value.expiry.value >= until
  }

  lemma AcceptStores(slot: Option<Entry>, clock: nat, op: Op)
    requires op.AcceptCount? && Apply(slot, clock, op).1 == Flag(true)
    ensures Apply(slot, clock, op).0 == Timed(Number(op.count), op.secs, clock)
  {
  }

  /** A live count is only ever replaced by a higher one that lives longer. */
  lemma AcceptKeeps(slot: Option<Entry>, clock: nat, op: Op, count: nat, since: nat)
    requires op.AcceptCount? && since <= clock <= since + op.secs * 1000
    requires HoldsCount(slot, count, since + op.secs * 1000)
    ensures HoldsCount(Apply(slot, clock, op).0, count, since + op.secs * 1000)
  {
  }

  /** Counts accepted for one user and nonce within the count lifetime strictly increase. */
  lemma AcceptedCountsIncrease(cfg: Config, db: Db<Key>, cs: seq<Cmd<Key>>, user: string, nonce: string, i: nat,
                               j: nat, c1: nat, c2: nat)
    requires AllIssued(cfg, cs) && i < j
    requires Accepts(cfg, db, cs, i, user, nonce, c1) && Accepts(cfg, db, cs, j, user, nonce, c2)
    requires Before(db, cs, j).clock <= Before(db, cs, i).clock + cfg.countTtl / 1000 * 1000
    ensures c1 < c2
  {
    CountKept(cfg, db, cs, user, nonce, i, j, c1);
  }

  /** The store with one record of the flat one under its own key. */
  function Seen(ns: string, flat: Db<string>, k: Key): Db<Key> {
    Db(if Slot(flat, Render(ns, k)).Some? then map[k := Slot(flat, Render(ns, k)).value] else map[], flat.clock)
  }

  /** The same on the flat store of strings, whatever else the cluster stores in it. */
  lemma FlatCountsIncrease(cfg: Config, ns: string, flat: Db<string>, cs: seq<Cmd<Key>>, user: string, nonce: string,
                           i: nat, j: nat, c1: nat, c2: nat)
    requires AllIssued(cfg, cs) && i < j < |cs|
    requires cs[i] == AcceptCmd(cfg, user, nonce, c1) && Answer(flat, RenderAll(ns, cs), i) == Flag(true)
    requires cs[j] == AcceptCmd(cfg, user, nonce, c2) && Answer(flat, RenderAll(ns, cs), j) == Flag(true)
    requires Before(flat, RenderAll(ns, cs), j).clock
          <= Before(flat, RenderAll(ns, cs), i).clock + cfg.countTtl / 1000 * 1000
    ensures c1 < c2
  {
    hide Render, Answer, Before, Issued;
    var k: Key := Count(user, nonce);
    var db := Seen(ns, flat, k);
    AloneWhen(cs, k);
    AloneAnswers(ns, flat, db, cs, i);
    AloneAnswers(ns, flat, db, cs, j);
    AcceptedCountsIncrease(cfg, db, cs, user, nonce, i, j, c1, c2);
  }

  // ----- A nonce recorded once -----

  function Recorded(cfg: Config, db: Db<Key>, nonce: string, expires: nat, now: nat): Db<Key> {
    Exec(db, RecordNonceCmd(cfg, nonce, expires, now)).0
  }

  /** No later command of the run records the nonce again. */
  predicate OnlyRead(cs: seq<Cmd<Key>>, nonce: string) {
    forall i :: 0 <= i < |cs| && cs[i].At? && cs[i].k == Nonce(nonce) ==> cs[i].op.Get?
  }

  /** What `nonce_status` answers when the caller's clock is the server's. */
  function StatusAt(db: Db<Key>, nonce: string): Result<NonceStatus, Error> {
    StatusOf(Slot(db, Nonce(nonce)), db.clock, db.clock)
  }

  lemma {:induction false} NonceKept(db: Db<Key>, cs: seq<Cmd<Key>>, nonce: string, i: nat)
    requires OnlyRead(cs, nonce) && i <= |cs|
    ensures Slot(Before(db, cs, i), Nonce(nonce)) == Slot(db, Nonce(nonce))
  {
    if i > 0 {
      NonceKept(db, cs, nonce, i - 1);
      NextState(db, cs, i - 1);
    }
  }

  /** When the nonce's stated lifetime ends, in whole seconds, and the last moment of its record. */
  function Lapse(expires: nat): nat { expires / 1000 * 1000 }

  function Gone(cfg: Config, expires: nat, now: nat, at: nat): nat {
    var life := cfg.staleRetention + Max(0, expires - now);
    at + if life < 1000 then 1000 else life / 1000 * 1000
  }

  /** The status at every moment of every run: Unknown once the record is gone, before that
      Active until the lifetime lapses and Expired from then on. */
  lemma StatusOverTime(cfg: Config, db: Db<Key>, cs: seq<Cmd<Key>>, nonce: string, expires: nat, now: nat, i: nat)
    requires OnlyRead(cs, nonce) && i <= |cs|
    ensures var t := Before(Recorded(cfg, db, nonce, expires, now), cs, i).clock;
            StatusAt(Before(Recorded(cfg, db, nonce, expires, now), cs, i), nonce)
            == Ok(if t > Gone(cfg, expires, now, db.clock) then Unknown
                  else if t < Lapse(expires) then Active else Expired)
  {
    NonceKept(Recorded(cfg, db, nonce, expires, now), cs, nonce, i);
  }

  function Rank(s: NonceStatus): nat { match s case Active => 0 case Expired => 1 case Unknown => 2 }

  /** The status only moves from Active to Expired to Unknown. */
  lemma StatusOnlyAdvances(cfg: Config, db: Db<Key>, cs: seq<Cmd<Key>>, nonce: string, expires: nat, now: nat, i: nat,
                           j: nat)
    requires OnlyRead(cs, nonce) && i <= j <= |cs|
    ensures var rec := Recorded(cfg, db, nonce, expires, now);
            var s, t := StatusAt(Before(rec, cs, i), nonce), StatusAt(Before(rec, cs, j), nonce);
            s.Ok? && t.Ok? && Rank(s.value) <= Rank(t.value)
  {
    StatusOverTime(cfg, db, cs, nonce, expires, now, i);
    StatusOverTime(cfg, db, cs, nonce, expires, now, j);
    ClockAdvances(Recorded(cfg, db, nonce, expires, now), cs, i, j);
  }

  /** No nonce is forgotten before it has expired ... */
  ghost predicate NeverForgottenEarly(cfg: Config, db: Db<Key>, nonce: string, expires: nat, now: nat) {
    forall cs, i {:trigger Before(Recorded(cfg, db, nonce, expires, now), cs, i)} ::
      && OnlyRead(cs, nonce) && 0 <= i <= |cs|
      && Before(Recorded(cfg, db, nonce, expires, now), cs, i).clock < Lapse(expires)
      ==> StatusAt(Before(Recorded(cfg, db, nonce, expires, now), cs, i), nonce) != Ok(Unknown)
  }

  /** ... exactly when its record outlasts its lifetime, both cut to whole seconds; a
      retention of a second is always enough. */
  lemma NeverForgottenEarlyIff(cfg: Config, db: Db<Key>, nonce: string, expires: nat, now: nat)
    requires now <= db.clock
    ensures NeverForgottenEarly(cfg, db, nonce, expires, now)
       <==> Lapse(expires) <= Gone(cfg, expires, now, db.clock) + 1
    ensures cfg.staleRetention >= 1000 ==> Lapse(expires) <= Gone(cfg, expires, now, db.clock)
  {
    var rec := Recorded(cfg, db, nonce, expires, now);
    if Lapse(expires) <= Gone(cfg, expires, now, db.clock) + 1 {
      forall cs, i | OnlyRead(cs, nonce) && 0 <= i <= |cs| && Before(rec, cs, i).clock < Lapse(expires)
        ensures StatusAt(Before(rec, cs, i), nonce) != Ok(Unknown)
      {
        StatusOverTime(cfg, db, cs, nonce, expires, now, i);
      }
    } else {
      var wait := [Tick(Gone(cfg, expires, now, db.clock) - db.clock + 1)];
      assert wait[..1] == wait && wait[..0] == [];
      NextState(rec, wait, 0);
      StatusOverTime(cfg, db, wait, nonce, expires, now, 1);
    }
  }

  // ----- Replay -----

  /** While the nonce is Active no count is accepted that does not exceed every earlier one. */
  ghost predicate NoReplay(cfg: Config, rec: Db<Key>, user: string, nonce: string) {
    forall cs, i, j, c1, c2
      {:trigger Accepts(cfg, rec, cs, i, user, nonce, c1), Accepts(cfg, rec, cs, j, user, nonce, c2)} ::
      && AllIssued(cfg, cs) && OnlyRead(cs, nonce) && i < j
      && Accepts(cfg, rec, cs, i, user, nonce, c1) && Accepts(cfg, rec, cs, j, user, nonce, c2)
      && StatusAt(Before(rec, cs, i), nonce) == Ok(Active) && StatusAt(Before(rec, cs, j), nonce) == Ok(Active)
      ==> c1 < c2
  }

  /** The last moment the nonce is Active comes before the first count's record can go. */
  predicate CoveredByCounts(cfg: Config, expires: nat, now: nat, at: nat) {
    var lapse, gone := Lapse(expires), Gone(cfg, expires, now, at);
    (if lapse <= gone then lapse else gone + 1) <= at + cfg.countTtl / 1000 * 1000 + 1
  }

  lemma NoReplayWhenCovered(cfg: Config, db: Db<Key>, user: string, nonce: string, expires: nat, now: nat)
    requires CoveredByCounts(cfg, expires, now, db.clock)
    ensures NoReplay(cfg, Recorded(cfg, db, nonce, expires, now), user, nonce)
  {
    var rec := Recorded(cfg, db, nonce, expires, now);
    forall cs, i, j, c1, c2
      | && AllIssued(cfg, cs) && OnlyRead(cs, nonce) && i < j
        && Accepts(cfg, rec, cs, i, user, nonce, c1) && Accepts(cfg, rec, cs, j, user, nonce, c2)
        && StatusAt(Before(rec, cs, i), nonce) == Ok(Active) && StatusAt(Before(rec, cs, j), nonce) == Ok(Active)
      ensures c1 < c2
    {
      StatusOverTime(cfg, db, cs, nonce, expires, now, j);
      assert Before(rec, cs, 0) == rec;
      ClockAdvances(rec, cs, 0, i);
      AcceptedCountsIncrease(cfg, rec, cs, user, nonce, i, j, c1, c2);
    }
  }

  /** The run that shows the condition is needed: accept a count at once, wait for its record
      to go, and accept it again while the nonce is still Active. */
  function ReplayRun(cfg: Config, user: string, nonce: string): seq<Cmd<Key>> {
    [AcceptCmd(cfg, user, nonce, 1), Tick(cfg.countTtl / 1000 * 1000 + 1), AcceptCmd(cfg, user, nonce, 1)]
  }

  lemma ReplayWhenNotCovered(cfg: Config, db: Db<Key>, user: string, nonce: string, expires: nat, now: nat)
    requires cfg.countTtl >= 1000 && !CoveredByCounts(cfg, expires, now, db.clock) && Slot(db, Count(user, nonce)).None?
    ensures var rec := Recorded(cfg, db, nonce, expires, now);
            var cs := ReplayRun(cfg, user, nonce);
            && AllIssued(cfg, cs) && OnlyRead(cs, nonce)
            && Accepts(cfg, rec, cs, 0, user, nonce, 1) && Accepts(cfg, rec, cs, 2, user, nonce, 1)
            && StatusAt(Before(rec, cs, 0), nonce) == Ok(Active) && StatusAt(Before(rec, cs, 2), nonce) == Ok(Active)
  {
    var rec := Recorded(cfg, db, nonce, expires, now);
    var cs := ReplayRun(cfg, user, nonce);
    assert Before(rec, cs, 0) == rec;
    NextState(rec, cs, 0);
    NextState(rec, cs, 1);
    StatusOverTime(cfg, db, cs, nonce, expires, now, 0);
    StatusOverTime(cfg, db, cs, nonce, expires, now, 2);
  }

  /** Such a nonce exists: a lifetime of a second and a half, no longer than the count lifetime
      of as much, is accepted twice because the count lifetime is cut to a second. */
  lemma ShortLifetimeIsReplayed(user: string, nonce: string)
    ensures var cfg := Config("n", 1000, 1500, 0, 0, 0);
            var db: Db<Key> := Db(map[], 600);
            var rec, cs := Recorded(cfg, db, nonce, 2100, 600), ReplayRun(cfg, user, nonce);
            && 2100 - 600 <= cfg.countTtl && !CoveredByCounts(cfg, 2100, 600, 600)
            && Accepts(cfg, rec, cs, 0, user, nonce, 1) && Accepts(cfg, rec, cs, 2, user, nonce, 1)
            && StatusAt(Before(rec, cs, 0), nonce) == Ok(Active) && StatusAt(Before(rec, cs, 2), nonce) == Ok(Active)
  {
    ReplayWhenNotCovered(Config("n", 1000, 1500, 0, 0, 0), Db(map[], 600), user, nonce, 2100, 600);
  }

  /** With a count lifetime of whole seconds, no shorter than the nonce's, the condition holds. */
  lemma WholeSecondsCover(cfg: Config, expires: nat, now: nat, at: nat)
    requires cfg.countTtl % 1000 == 0 && now <= at && expires <= now + cfg.countTtl
    ensures CoveredByCounts(cfg, expires, now, at)
  {
    assert cfg.countTtl / 1000 * 1000 == cfg.countTtl;
  }

  /** For a fresh nonce recorded once: no replay in any run, exactly when counts are refused
      altogether or their lifetime covers the nonce's. */
  lemma NoReplayIff(cfg: Config, db: Db<Key>, user: string, nonce: string, expires: nat, now: nat)
    requires Slot(db, Count(user, nonce)).None?
    ensures NoReplay(cfg, Recorded(cfg, db, nonce, expires, now), user, nonce)
            <==> cfg.countTtl < 1000 || CoveredByCounts(cfg, expires, now, db.clock)
    ensures Lapse(expires) <= db.clock + cfg.countTtl / 1000 * 1000 + 1 ==> CoveredByCounts(cfg, expires, now, db.clock)
  {
    if CoveredByCounts(cfg, expires, now, db.clock) {
      NoReplayWhenCovered(cfg, db, user, nonce, expires, now);
    } else if cfg.countTtl >= 1000 {
      ReplayWhenNotCovered(cfg, db, user, nonce, expires, now);
    } else {
      assert cfg.countTtl / 1000 == 0;
    }
  }
}

/** The fixed-window limiter over every interleaving: other keys' traffic, time passing, and
    attempts on one key that are first allowed and later recorded. */
module RateRuns {
  import opened Prelude
  import opened RedisKeys
  import opened RedisStore
  import opened RedisAuth

  datatype Event =
    | Other(c: Cmd<Key>)       // a command that does not record a result for the key
    | Begin                    // an attempt is checked
    | Finish(success: bool)    // an allowed attempt's result is recorded
    | Abandon                  // an allowed attempt that is never recorded

  datatype State = State(db: Db<Key>, inFlight: nat)

  function Count(s: State, key: RateKey): nat { Failures(Slot(s.db, Rate(key)), s.db.clock) }

  /** Commands other than the key's own results. */
  predicate Elsewhere(cfg: Config, key: RateKey, c: Cmd<Key>) {
    Issued(cfg, c) && (c.At? && c.k == Rate(key) ==> c.op.Get? || c.op.Ttl?)
  }

  /** At most `k` allowed attempts are in flight, and only they are recorded. */
  predicate Enabled(cfg: Config, key: RateKey, k: nat, s: State, e: Event) {
    match e
    case Other(c) => Elsewhere(cfg, key, c)
    case Begin => AttemptVerdict(cfg, s.db, [], Rate(key)) == Allowed ==> s.inFlight < k
    case Finish(_) => s.inFlight > 0
    case Abandon => s.inFlight > 0
  }

  function Step(cfg: Config, key: RateKey, s: State, e: Event): State {
    match e
    case Other(c) => s.(db := Exec(s.db, c).0)
    case Begin => if AttemptVerdict(cfg, s.db, [], Rate(key)) == Allowed then s.(inFlight := s.inFlight + 1) else s
    case Finish(success) =>
      State(Exec(s.db, ResultCmd(cfg, key, success)).0, if s.inFlight > 0 then s.inFlight - 1 else 0)
    case Abandon => s.(inFlight := if s.inFlight > 0 then s.inFlight - 1 else 0)
  }

  function After(cfg: Config, key: RateKey, s: State, es: seq<Event>): State {
    if es == [] then s else Step(cfg, key, After(cfg, key, s, es[..|es| - 1]), es[|es| - 1])
  }

  ghost predicate Permitted(cfg: Config, key: RateKey, k: nat, s: State, es: seq<Event>) {
    es != [] ==>
      && Permitted(cfg, key, k, s, es[..|es| - 1])
      && Enabled(cfg, key, k, After(cfg, key, s, es[..|es| - 1]), es[|es| - 1])
  }

  /** Every counter holds a number and ends within a window from now. */
  predicate Sound(cfg: Config, s: State, key: RateKey) {
    var slot := Slot(s.db, Rate(key));
    slot.Some? ==> slot.value.value.Number? && slot.value.value.n >= 1
                   && slot.value.expiry.Some? && slot.value.expiry.value <= s.db.clock + cfg.window / 1000 * 1000
  }

  /** Failures on record and results still to come never exceed the limit by more than the
      attempts allowed at once. */
  predicate Bounded(cfg: Config, key: RateKey, k: nat, s: State) {
    Count(s, key) + s.inFlight <= cfg.maxFailures - 1 + k
  }

  lemma StepKeepsBound(cfg: Config, key: RateKey, k: nat, s: State, e: Event)
    requires cfg.maxFailures >= 1 && Sound(cfg, s, key) && Bounded(cfg, key, k, s) && Enabled(cfg, key, k, s, e)
    ensures Sound(cfg, Step(cfg, key, s, e), key) && Bounded(cfg, key, k, Step(cfg, key, s, e))
  {
  }

  /** In every run the failure count stays below the limit plus the attempts in flight. */
  lemma {:induction false} FailuresBounded(cfg: Config, key: RateKey, k: nat, s: State, es: seq<Event>)
    requires cfg.maxFailures >= 1 && Sound(cfg, s, key) && Bounded(cfg, key, k, s) && Permitted(cfg, key, k, s, es)
    ensures Sound(cfg, After(cfg, key, s, es), key) && Bounded(cfg, key, k, After(cfg, key, s, es))
    ensures Count(After(cfg, key, s, es), key) <= cfg.maxFailures - 1 + k
  {
    if es != [] {
      FailuresBounded(cfg, key, k, s, es[..|es| - 1]);
      StepKeepsBound(cfg, key, k, After(cfg, key, s, es[..|es| - 1]), es[|es| - 1]);
    }
  }

  lemma StepKeepsExpiry(cfg: Config, key: RateKey, k: nat, s: State, e: Event)
    requires Sound(cfg, s, key) && Live(s.db, Rate(key)) && Enabled(cfg, key, k, s, e)
    requires Live(Step(cfg, key, s, e).db, Rate(key))
    ensures var slot, slot' := Slot(s.db, Rate(key)), Slot(Step(cfg, key, s, e).db, Rate(key));
            slot'.Some? && slot'.value.expiry == slot.value.expiry
  {
  }

  /** The state after the first `i` events. */
  function StateAt(cfg: Config, key: RateKey, s: State, es: seq<Event>, i: nat): State
    requires i <= |es|
  {
    After(cfg, key, s, es[..i])
  }

  /** From event `i` to event `j` the counter answers. */
  ghost predicate Running(cfg: Config, key: RateKey, s: State, es: seq<Event>, i: nat, j: nat) {
    i <= j <= |es| && forall m: nat :: i <= m <= j ==> Live(StateAt(cfg, key, s, es, m).db, Rate(key))
  }

  /** The window is fixed: between any two moments of a run with the counter live throughout,
      whatever failures are recorded, the expiry is the same. */
  lemma {:induction false} ExpiryNeverMoves(cfg: Config, key: RateKey, k: nat, s: State, es: seq<Event>, i: nat, j: nat)
    requires cfg.maxFailures >= 1 && Sound(cfg, s, key) && Bounded(cfg, key, k, s)
    requires Permitted(cfg, key, k, s, es) && Running(cfg, key, s, es, i, j)
    ensures var slot := Slot(StateAt(cfg, key, s, es, i).db, Rate(key));
            var slot' := Slot(StateAt(cfg, key, s, es, j).db, Rate(key));
            slot.Some? && slot'.Some? && slot'.value.expiry == slot.value.expiry
    decreases j
  {
    if i < j {
      hide Step, Enabled, Sound;
      ExpiryNeverMoves(cfg, key, k, s, es, i, j - 1);
      PrefixPermitted(cfg, key, k, s, es, j);
      PrefixPermitted(cfg, key, k, s, es, j - 1);
      assert es[..j][..j - 1] == es[..j - 1];
      FailuresBounded(cfg, key, k, s, es[..j - 1]);
      assert Live(StateAt(cfg, key, s, es, j - 1).db, Rate(key)) && Live(StateAt(cfg, key, s, es, j).db, Rate(key));
      StepKeepsExpiry(cfg, key, k, StateAt(cfg, key, s, es, j - 1), es[j - 1]);
    }
  }

  lemma {:induction false} PrefixPermitted(cfg: Config, key: RateKey, k: nat, s: State, es: seq<Event>, i: nat)
    requires Permitted(cfg, key, k, s, es) && i <= |es|
    ensures Permitted(cfg, key, k, s, es[..i])
    decreases |es|
  {
    if i == |es| {
      assert es[..i] == es;
    } else {
      PrefixPermitted(cfg, key, k, s, es[..|es| - 1], i);
      assert es[..|es| - 1][..i] == es[..i];
    }
  }

  // ----- The bound is reached -----

  /** The counter stands at `n`, in a window opened just now. */
  predicate Stands(cfg: Config, key: RateKey, s: State, n: nat) {
    Slot(s.db, Rate(key)) == if n == 0 then None else Timed(Number(n), cfg.window / 1000, s.db.clock)
  }

  lemma FailureAdds(cfg: Config, key: RateKey, s: State, n: nat)
    requires cfg.window >= 1000 && Stands(cfg, key, s, n)
    ensures Count(s, key) == n && Stands(cfg, key, Step(cfg, key, s, Finish(false)), n + 1)
  {
    assert cfg.window / 1000 >= 1;
  }

  /** A permitted run that leaves the counter at `m` with `f` attempts in flight. */
  ghost predicate Reaches(cfg: Config, key: RateKey, k: nat, s: State, es: seq<Event>, m: nat, f: nat) {
    Permitted(cfg, key, k, s, es) && Stands(cfg, key, After(cfg, key, s, es), m) && After(cfg, key, s, es).inFlight == f
  }

  lemma BeginOnce(cfg: Config, key: RateKey, k: nat, s: State, es: seq<Event>, m: nat, f: nat)
    requires cfg.window >= 1000 && Reaches(cfg, key, k, s, es, m, f) && f < k && m < cfg.maxFailures
    ensures Reaches(cfg, key, k, s, es + [Begin], m, f + 1)
  {
    FailureAdds(cfg, key, After(cfg, key, s, es), m);
    assert (es + [Begin])[..|es|] == es;
  }

  lemma FailOnce(cfg: Config, key: RateKey, k: nat, s: State, es: seq<Event>, m: nat, f: nat)
    requires cfg.window >= 1000 && Reaches(cfg, key, k, s, es, m, f) && f > 0
    ensures Reaches(cfg, key, k, s, es + [Finish(false)], m + 1, f - 1)
  {
    FailureAdds(cfg, key, After(cfg, key, s, es), m);
    assert (es + [Finish(false)])[..|es|] == es;
  }

  /** `n` more failures one after another, each allowed before it is recorded. */
  lemma {:induction false} FailInTurn(cfg: Config, key: RateKey, k: nat, s: State, es: seq<Event>, m: nat, n: nat)
    returns (run: seq<Event>)
    requires cfg.window >= 1000 && Reaches(cfg, key, k, s, es, m, 0) && k >= 1 && m + n <= cfg.maxFailures
    ensures Reaches(cfg, key, k, s, run, m + n, 0)
    decreases n
  {
    run := es;
    if n > 0 {
      BeginOnce(cfg, key, k, s, es, m, 0);
      FailOnce(cfg, key, k, s, es + [Begin], m, 1);
      run := FailInTurn(cfg, key, k, s, es + [Begin] + [Finish(false)], m + 1, n - 1);
    }
  }

  lemma {:induction false} BeginTogether(cfg: Config, key: RateKey, k: nat, s: State, es: seq<Event>, m: nat, f: nat)
    returns (run: seq<Event>)
    requires cfg.window >= 1000 && Reaches(cfg, key, k, s, es, m, f) && f <= k && m < cfg.maxFailures
    ensures Reaches(cfg, key, k, s, run, m, k)
    decreases k - f
  {
    run := es;
    if f < k {
      BeginOnce(cfg, key, k, s, es, m, f);
      run := BeginTogether(cfg, key, k, s, es + [Begin], m, f + 1);
    }
  }

  lemma {:induction false} FailTogether(cfg: Config, key: RateKey, k: nat, s: State, es: seq<Event>, m: nat, f: nat)
    returns (run: seq<Event>)
    requires cfg.window >= 1000 && Reaches(cfg, key, k, s, es, m, f)
    ensures Reaches(cfg, key, k, s, run, m + f, 0)
    decreases f
  {
    run := es;
    if f > 0 {
      FailOnce(cfg, key, k, s, es, m, f);
      run := FailTogether(cfg, key, k, s, es + [Finish(false)], m + 1, f - 1);
    }
  }

  /** From a fresh key some run reaches the bound, so no smaller one holds. */
  lemma BoundIsReached(cfg: Config, key: RateKey, k: nat, s: State) returns (run: seq<Event>)
    requires cfg.maxFailures >= 1 && cfg.window >= 1000 && k >= 1 && Slot(s.db, Rate(key)).None? && s.inFlight == 0
    ensures Permitted(cfg, key, k, s, run) && Count(After(cfg, key, s, run), key) == cfg.maxFailures - 1 + k
  {
    var n := cfg.maxFailures - 1;
    run := FailInTurn(cfg, key, k, s, [], 0, n);
    run := BeginTogether(cfg, key, k, s, run, n, 0);
    run := FailTogether(cfg, key, k, s, run, n, k);
    FailureAdds(cfg, key, After(cfg, key, s, run), n + k);
  }

  // ----- Waiting as told -----

  /** Time passes and other traffic is served, but no failure of the key is recorded. */
  predicate Quiet(cfg: Config, key: RateKey, c: Cmd<Key>) {
    Issued(cfg, c) && c != ResultCmd(cfg, key, false)
  }

  predicate AllQuiet(cfg: Config, key: RateKey, cs: seq<Cmd<Key>>) {
    forall i :: 0 <= i < |cs| ==> Quiet(cfg, key, cs[i])
  }

  predicate NeverCleared(key: RateKey, cs: seq<Cmd<Key>>) { At(Rate(key), Del) !in cs }

  /** The hint does not reach past the time left: TTL dropped less than half a second, or
      nothing, and the record still answers in the last millisecond. */
  predicate HintFallsShort(left: int) { left >= 1000 && left % 1000 < 500 }

  lemma {:induction false} QuietKeeps(cfg: Config, key: RateKey, db: Db<Key>, cs: seq<Cmd<Key>>)
    requires AllQuiet(cfg, key, cs)
    ensures Slot(Run(db, cs), Rate(key)) == Slot(db, Rate(key)) || Slot(Run(db, cs), Rate(key)).None?
    ensures NeverCleared(key, cs) ==> Slot(Run(db, cs), Rate(key)) == Slot(db, Rate(key))
  {
    if cs != [] {
      var n := |cs| - 1;
      QuietKeeps(cfg, key, db, cs[..n]);
      assert Quiet(cfg, key, cs[n]);
      assert cs[n] in cs && forall c :: c in cs[..n] ==> c in cs;
    }
  }

  /** Every counter a run of commands leaves is sound. */
  lemma {:induction false} SoundKept(cfg: Config, key: RateKey, db: Db<Key>, cs: seq<Cmd<Key>>)
    requires Sound(cfg, State(db, 0), key) && AllIssued(cfg, cs)
    ensures Sound(cfg, State(Run(db, cs), 0), key)
  {
    if cs != [] {
      SoundKept(cfg, key, db, cs[..|cs| - 1]);
      assert Issued(cfg, cs[|cs| - 1]);
    }
  }

  /** After a denial, waiting exactly as long as told finds the counter below the limit if and
      only if the hint reached past the time left when TTL read it, or the failures had
      already gone below the limit then; half a second more is always enough. */
  lemma WaitingIff(cfg: Config, key: RateKey, db: Db<Key>, between: seq<Cmd<Key>>, cs: seq<Cmd<Key>>)
    requires cfg.maxFailures >= 1 && cfg.window >= 1000 && Sound(cfg, State(db, 0), key)
    requires AllIssued(cfg, between) && AllQuiet(cfg, key, cs)
    ensures var verdict := AttemptVerdict(cfg, db, between, Rate(key));
            var read := Run(db, between);
            var later, slot := Run(read, cs), Slot(read, Rate(key));
            var stuck := && Alive(slot, read.clock) && slot.value.expiry.Some?
                         && HintFallsShort(slot.value.expiry.value - read.clock);
            var after := Failures(Slot(later, Rate(key)), later.clock);
            verdict.Denied? ==>
              && (later.clock >= read.clock + verdict.retryAfter && !stuck ==> after == 0)
              && (later.clock >= read.clock + verdict.retryAfter + 500 ==> after == 0)
              && (later.clock == read.clock + verdict.retryAfter && NeverCleared(key, cs) ==>
                    (AttemptVerdict(cfg, later, [], Rate(key)) == Allowed
                     <==> !stuck || AttemptVerdict(cfg, read, [], Rate(key)) == Allowed))
  {
    hide Run, AllIssued, AllQuiet, Issued;
    var read := Run(db, between);
    SoundKept(cfg, key, db, between);
    QuietKeeps(cfg, key, read, cs);
    var slot := Slot(read, Rate(key));
    if Alive(slot, read.clock) { HintCovers(cfg, slot.value.expiry.value - read.clock); }
  }

  /** A counter opened with a window of one second, checked in the same millisecond: the hint is a
      second, and after exactly a second the check still denies. */
  lemma WaitingAsToldFails(key: RateKey)
    ensures var cfg := Config("n", 0, 0, 0, 1000, 1);
            var db := Exec(Db(map[], 0), ResultCmd(cfg, key, false)).0;
            && AttemptVerdict(cfg, db, [], Rate(key)) == Denied(1000)
            && AllQuiet(cfg, key, [Tick(1000)])
            && AttemptVerdict(cfg, Run(db, [Tick(1000)]), [], Rate(key)).Denied?
  {
    var cfg := Config("n", 0, 0, 0, 1000, 1);
    var db := Exec(Db(map[], 0), ResultCmd(cfg, key, false)).0;
    assert Slot(db, Rate(key)) == Timed(Number(1), 1, 0);
    var wait: seq<Cmd<Key>> := [Tick(1000)];
    assert wait[..0] == [] && Run(db, wait) == Exec(Run(db, wait[..0]), wait[0]).0;
  }

  /** The hint reaches past the time left exactly when it does not fall short. */
  lemma HintCovers(cfg: Config, left: int)
    requires 0 <= left && cfg.window >= 1000
    ensures var hint := RetryAfter(cfg, (left + 500) / 1000);
            (hint <= left <==> HintFallsShort(left)) && left < hint + 500
  {
  }
}

/** Revocation marks over every run. */
module TokenRuns {
  import opened Prelude
  import opened RedisKeys
  import opened RedisStore
  import opened RedisAuth

  predicate Revokes(c: Cmd<Key>, key: Key) { c.At? && c.k == key && c.op.SetEx? }

  /** The moment the latest revocation of the key ends, if there was one. */
  function RevokedUntil(db: Db<Key>, cs: seq<Cmd<Key>>, key: Key): (r: Option<nat>) {
    if cs == [] then None
    else
      var n := |cs| - 1;
      if Revokes(cs[n], key) then Some(Run(db, cs[..n]).clock + cs[n].op.secs * 1000)
      else RevokedUntil(db, cs[..n], key)
  }

  /** In every run a mark is live exactly until its latest revocation ends. */
  lemma {:induction false} MarkIff(cfg: Config, db: Db<Key>, cs: seq<Cmd<Key>>, key: Key)
    requires key.Token? && AllIssued(cfg, cs) && Slot(db, key).None?
    ensures var until := RevokedUntil(db, cs, key);
            && Slot(Run(db, cs), key) == (if until.None? then None else Some(Entry(Mark, until)))
            && (Live(Run(db, cs), key) <==> until.Some? && Run(db, cs).clock <= until.value)
  {
    if cs != [] {
      var n := |cs| - 1;
      MarkIff(cfg, db, cs[..n], key);
      assert Issued(cfg, cs[n]);
    }
  }

  /** A check answers Revoked exactly when, at the moment it reads it, the latest revocation
      of the global mark or of the issuer's own has not yet ended. */
  lemma RevokedIff(cfg: Config, db: Db<Key>, cs: seq<Cmd<Key>>, between: seq<Cmd<Key>>, issuer: Option<string>,
                   token: string)
    requires AllIssued(cfg, cs) && AllIssued(cfg, between)
    requires Slot(db, Token(None, token)).None? && Slot(db, Token(issuer, token)).None?
    ensures var everywhere := RevokedUntil(db, cs, Token(None, token));
            var here := RevokedUntil(db, cs + between, Token(issuer, token));
            TokenVerdict(Run(db, cs), between, Token(None, token), OwnMark(issuer, token)) == Revoked <==>
            (everywhere.Some? && Run(db, cs).clock <= everywhere.value)
            || (issuer.Some? && here.Some? && Run(db, cs + between).clock <= here.value)
  {
    MarkIff(cfg, db, cs, Token(None, token));
    MarkIff(cfg, db, cs + between, Token(issuer, token));
    RunAppend(db, cs, between);
  }

  predicate NoRevoke(cs: seq<Cmd<Key>>, key: Key) { forall i :: 0 <= i < |cs| ==> !Revokes(cs[i], key) }

  lemma {:induction false} LatestRevoke(cfg: Config, db: Db<Key>, cs: seq<Cmd<Key>>, key: Key)
    requires key.Token? && AllIssued(cfg, cs) && NoRevoke(cs, key)
    ensures Slot(Run(db, cs), key) == Slot(db, key)
  {
    if cs != [] {
      var n := |cs| - 1;
      LatestRevoke(cfg, db, cs[..n], key);
      assert Issued(cfg, cs[n]) && !Revokes(cs[n], key);
    }
  }

  /** How long a revocation is kept: as long as the token would live, or the configured time when
      the token has no expiry or is past it; in whole seconds, and at least one. */
  function MarkLife(cfg: Config, until: Option<int>, now: nat): nat {
    var life := if until.Some? && until.value >= now then until.value - now else cfg.revocationTtl;
    if life < 1000 then 1000 else life / 1000 * 1000
  }

  /** The latest revocation of a token is in force for exactly that long. So one that expires stays
      revoked to within a second of its expiry. */
  lemma RevocationLasts(cfg: Config, db: Db<Key>, cs: seq<Cmd<Key>>, issuer: Option<string>, token: string,
                        until: Option<int>, now: nat)
    requires AllIssued(cfg, cs) && NoRevoke(cs, Token(issuer, token))
    ensures var later := Run(Exec(db, RevokeCmd(cfg, issuer, token, until, now)).0, cs);
            && (Live(later, Token(issuer, token)) <==> later.clock <= db.clock + MarkLife(cfg, until, now))
            && (until.Some? && now <= until.value && now <= db.clock && later.clock <= until.value - 1000 ==>
                  Live(later, Token(issuer, token)))
  {
    LatestRevoke(cfg, Exec(db, RevokeCmd(cfg, issuer, token, until, now)).0, cs, Token(issuer, token));
  }
}
