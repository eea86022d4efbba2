/** WebAuthn ceremonies: two tables of one-shot, time-limited challenges. Times are in
    milliseconds. What the passkey library and the user store answer are parameters. */
module Ceremonies {
  import opened Prelude

  datatype Kind = Registration | Authentication

  /** `state` stands for the library's challenge state. */
  datatype Ceremony = Ceremony(user: string, state: nat, expiresAt: int)

  datatype Tables = Tables(registrations: map<string, Ceremony>, authentications: map<string, Ceremony>)

  datatype Error = UserNotFound | InvalidCredentials | CeremonyFailed | UnknownCeremony | StoreFailed(code: nat)

  datatype User = User(id: string, active: bool)

  function Table(t: Tables, kind: Kind): map<string, Ceremony> {
    if kind.Registration? then t.registrations else t.authentications
  }

  function With(t: Tables, kind: Kind, table: map<string, Ceremony>): Tables {
    if kind.Registration? then t.(registrations := table) else t.(authentications := table)
  }

  /** A lifetime the calendar library cannot hold becomes five minutes. */
  function Lifetime(ttl: nat): nat { if ttl < TWO_63 then ttl else 300000 }

  function Pruned(table: map<string, Ceremony>, now: int): map<string, Ceremony> {
    map id | id in table && table[id].expiresAt > now :: table[id]
  }

  /** One locked section of the service. `at` is the clock then; a prune may act on an
      earlier reading, and a take checks the expiry on a later one. */
  datatype Event =
    | Start(at: int, kind: Kind, id: string, user: string, state: nat)
    | Take(at: int, kind: Kind, id: string, checked: int)
    | Prune(at: int, kind: Kind, now: int)

  function Begun(ttl: nat, e: Event): Ceremony
    requires e.Start?
  {
    Ceremony(e.user, e.state, e.at + Lifetime(ttl))
  }

  function Step(ttl: nat, t: Tables, e: Event): Tables {
    match e
    case Start(_, kind, id, _, _) => With(t, kind, Table(t, kind)[id := Begun(ttl, e)])
    case Take(_, kind, id, _) => With(t, kind, Table(t, kind) - {id})
    case Prune(_, kind, now) => With(t, kind, Pruned(Table(t, kind), now))
  }

  /** What a take hands out. */
  function Taken(t: Tables, e: Event): Result<Ceremony, Error>
    requires e.Take?
  {
    if e.id in Table(t, e.kind) && Table(t, e.kind)[e.id].expiresAt > e.checked
    then Ok(Table(t, e.kind)[e.id]) else Err(UnknownCeremony)
  }

  function Swept(ttl: nat, t: Tables, now: int): Tables {
    Step(ttl, Step(ttl, t, Prune(now, Registration, now)), Prune(now, Authentication, now))
  }

  /** What finishing an authentication asks of the passkey library, the credential store and
      the token issuer. */
  datatype Backend = Backend(
    verify: nat -> Option<nat>,                   // the credential against the challenge state
    passkeys: string -> Result<seq<nat>, Error>,
    update: (nat, nat) -> Option<nat>,            // a passkey, if the result is for it
    save: (string, nat) -> Option<Error>,
    touch: nat -> Option<Error>,
    issue: string -> Result<string, Error>)

  /** The first passkey the result is for, as updated. */
  function FirstUpdated(b: Backend, keys: seq<nat>, result: nat): Option<nat> {
    if keys == [] then None
    else if b.update(keys[0], result).Some? then b.update(keys[0], result)
    else FirstUpdated(b, keys[1..], result)
  }

  /** The result is for the passkey at `i` and for none before it. */
  predicate FirstMatch(b: Backend, keys: seq<nat>, result: nat, i: nat)
    requires i < |keys|
  {
    b.update(keys[i], result).Some? && forall j :: 0 <= j < i ==> b.update(keys[j], result).None?
  }

  /** Recording the use: the first matching passkey is saved for the user, or the use is noted
      by credential id. */
  function RecordUse(b: Backend, user: string, keys: seq<nat>, result: nat): Option<Error> {
    match FirstUpdated(b, keys, result)
    case Some(key) => b.save(user, key)
    case None => b.touch(result)
  }

  /** The outcome for a taken ceremony: every later question is about its own user. */
  function FinishOf(b: Backend, taken: Result<Ceremony, Error>): Result<string, Error> {
    if taken.Err? then Err(UnknownCeremony)
    else if b.verify(taken.value.state).None? then Err(CeremonyFailed)
    else
      var user, result := taken.value.user, b.verify(taken.value.state).value;
      if b.passkeys(user).Err? then Err(b.passkeys(user).error)
      else
        match RecordUse(b, user, b.passkeys(user).value, result)
        case Some(e) => Err(e)
        case None => b.issue(user)
  }

  class WebauthnService {
    const ceremonyTtl: nat
    var registrations: map<string, Ceremony>
    var authentications: map<string, Ceremony>

    constructor (ceremonyTtl: nat)
      ensures this.ceremonyTtl == ceremonyTtl && Contents() == Tables(map[], map[])
    {
      this.ceremonyTtl := ceremonyTtl;
      registrations := map[];
      authentications := map[];
    }

    function Contents(): Tables
      reads this
    {
      Tables(registrations, authentications)
    }

    /** `prune_expired`. */
    method PruneExpired(now: int)
      modifies this
      ensures Contents() == Swept(ceremonyTtl, old(Contents()), now)
      ensures forall kind, id ::
                && (id in Table(Contents(), kind)
                    <==> id in Table(old(Contents()), kind) && Table(old(Contents()), kind)[id].expiresAt > now)
                && (id in Table(Contents(), kind) ==>
                      Table(Contents(), kind)[id] == Table(old(Contents()), kind)[id])
    {
      registrations := map id | id in registrations && registrations[id].expiresAt > now :: registrations[id];
      authentications := map id | id in authentications && authentications[id].expiresAt > now :: authentications[id];
    }

    /** `start_registration` and `start_authentication`: only an active user's challenge is
        stored, under that user's own id; authentication needs a passkey to challenge. The user
        store answers `lookup` and `passkeys`, the passkey library `begin`. */
    method StartCeremony(kind: Kind, lookup: Result<Option<User>, Error>, passkeys: Result<seq<nat>, Error>,
                         begin: seq<nat> -> Option<nat>, id: string, now: int, later: int)
      returns (r: Result<string, Error>)
      modifies this
      ensures r.Err? ==> Contents() == Swept(ceremonyTtl, old(Contents()), now)
      ensures match lookup
              case Err(e) => r == Err(e)
              case Ok(None) => r == Err(UserNotFound)
              case Ok(Some(User(_, false))) => r == Err(InvalidCredentials)
              case Ok(Some(User(user, true))) =>
                match passkeys
                case Err(e) => r == Err(e)
                case Ok(keys) =>
                  if (kind.Authentication? && keys == []) || begin(keys).None? then r == Err(CeremonyFailed)
                  else
                    && r == Ok(id)
                    && Contents() == Step(ceremonyTtl, Swept(ceremonyTtl, old(Contents()), now),
                                          Start(later, kind, id, user, begin(keys).value))
    {
      PruneExpired(now);
      var found :- lookup;
      if found.None? { return Err(UserNotFound); }
      var user := found.value;
      if !user.active { return Err(InvalidCredentials); }
      var keys :- passkeys;
      if kind.Authentication? && keys == [] { return Err(CeremonyFailed); }
      var state := begin(keys);
      if state.None? { return Err(CeremonyFailed); }
      var ceremony := Ceremony(user.id, state.value, later + Lifetime(ceremonyTtl));
      if kind.Registration? {
        registrations := registrations[id := ceremony];
      } else {
        authentications := authentications[id := ceremony];
      }
      return Ok(id);
    }

    /** `take_registration` and `take_authentication`: the entry goes even when it is late. */
    method TakeCeremony(kind: Kind, id: string, checked: int) returns (r: Result<Ceremony, Error>)
      modifies this
      ensures r == Taken(old(Contents()), Take(checked, kind, id, checked))
      ensures Contents() == Step(ceremonyTtl, old(Contents()), Take(checked, kind, id, checked))
    {
      if kind.Registration? {
        r := if id in registrations then Ok(registrations[id]) else Err(UnknownCeremony);
        registrations := registrations - {id};
      } else {
        r := if id in authentications then Ok(authentications[id]) else Err(UnknownCeremony);
        authentications := authentications - {id};
      }
      if r.Ok? && r.value.expiresAt <= checked { r := Err(UnknownCeremony); }
    }

    /** `finish_authentication`: tokens are issued to the user stored at the start and to nobody
        else, only for a credential that verifies; whatever goes wrong after the take, the
        ceremony is used up. */
    method FinishAuthentication(id: string, checked: int, backend: Backend) returns (r: Result<string, Error>)
      modifies this
      ensures Contents() == Step(ceremonyTtl, old(Contents()), Take(checked, Authentication, id, checked))
      ensures var taken := Taken(old(Contents()), Take(checked, Authentication, id, checked));
              r == FinishOf(backend, taken)
      ensures match Taken(old(Contents()), Take(checked, Authentication, id, checked))
              case Err(_) => r == Err(UnknownCeremony)
              case Ok(Ceremony(user, state, _)) =>
                match backend.verify(state)
                case None => r == Err(CeremonyFailed)
                case Some(result) =>
                  match backend.passkeys(user)
                  case Err(e) => r == Err(e)
                  case Ok(keys) =>
                    var fault := RecordUse(backend, user, keys, result);
                    r == if fault.Some? then Err(fault.value) else backend.issue(user)
    {
      var taken := TakeCeremony(Authentication, id, checked);
      if taken.Err? { return Err(UnknownCeremony); }
      var ceremony := taken.value;
      var result := backend.verify(ceremony.state);
      if result.None? { return Err(CeremonyFailed); }
      var keys :- backend.passkeys(ceremony.user);
      var fault := UpdatePasskeys(backend, ceremony.user, keys, result.value);
      if fault.Some? { return Err(fault.value); }
      r := backend.issue(ceremony.user);
    }

    /** The loop over the user's passkeys: the first that the result is for is saved. */
    static method UpdatePasskeys(backend: Backend, user: string, keys: seq<nat>, result: nat)
      returns (fault: Option<Error>)
      ensures fault == RecordUse(backend, user, keys, result)
      ensures (forall key :: key in keys ==> backend.update(key, result).None?) ==> fault == backend.touch(result)
      ensures forall i :: 0 <= i < |keys| && FirstMatch(backend, keys, result, i) ==>
                fault == backend.save(user, backend.update(keys[i], result).value)
    {
      for i := 0 to |keys|
        invariant FirstUpdated(backend, keys, result) == FirstUpdated(backend, keys[i..], result)
        invariant forall j :: 0 <= j < i ==> backend.update(keys[j], result).None?
      {
        assert keys[i..][1..] == keys[i + 1..];
        var updated := backend.update(keys[i], result);
        if updated.Some? { return backend.save(user, updated.value); }
      }
      return backend.touch(result);
    }
  }

  // ----- Runs -----

  /** The tables after the first `n` events, from empty ones. */
  function After(ttl: nat, es: seq<Event>, n: nat): Tables
    requires n <= |es|
  {
    if n == 0 then Tables(map[], map[]) else Step(ttl, After(ttl, es, n - 1), es[n - 1])
  }

  predicate TimeOf(e: Event) {
    match e
    case Start(_, _, _, _, _) => true
    case Take(at, _, _, checked) => at <= checked
    case Prune(at, _, now) => now <= at
  }

  /** The clock never goes back. */
  predicate Timed(es: seq<Event>) {
    (forall i, j :: 0 <= i < j < |es| ==> es[i].at <= es[j].at) && forall i :: 0 <= i < |es| ==> TimeOf(es[i])
  }

  predicate Starts(e: Event, kind: Kind, id: string) { e.Start? && e.kind == kind && e.id == id }

  predicate Takes(e: Event, kind: Kind, id: string) { e.Take? && e.kind == kind && e.id == id }

  /** No two ceremonies of a kind have the same id. */
  predicate FreshIds(es: seq<Event>) {
    forall i, j :: 0 <= i < j < |es| && es[i].Start? && es[j].Start? && es[i].kind == es[j].kind ==>
      es[i].id != es[j].id
  }

  /** Event `i` started the ceremony and nobody has taken it since. */
  predicate Pending(es: seq<Event>, i: nat, n: nat, kind: Kind, id: string) {
    i < n <= |es| && Starts(es[i], kind, id) && forall j :: i < j < n ==> !Takes(es[j], kind, id)
  }

  /** Every entry was put there by a start that has not been taken since. */
  lemma {:induction false} EntryWasStarted(ttl: nat, es: seq<Event>, n: nat, kind: Kind, id: string) returns (i: nat)
    requires n <= |es| && id in Table(After(ttl, es, n), kind)
    ensures Pending(es, i, n, kind, id) && Table(After(ttl, es, n), kind)[id] == Begun(ttl, es[i])
  {
    if n > 0 {
      var e := es[n - 1];
      if Starts(e, kind, id) {
        i := n - 1;
      } else {
        i := EntryWasStarted(ttl, es, n - 1, kind, id);
      }
    }
  }

  predicate TakenAt(ttl: nat, es: seq<Event>, j: nat) { j < |es| && es[j].Take? && Taken(After(ttl, es, j), es[j]).Ok? }

  /** A successful take hands out what a start of that id stored, for the user of that start,
      before its lifetime is over. */
  lemma TakenWasStarted(ttl: nat, es: seq<Event>, j: nat) returns (i: nat)
    requires TakenAt(ttl, es, j)
    ensures Pending(es, i, j, es[j].kind, es[j].id)
    ensures Taken(After(ttl, es, j), es[j]) == Ok(Begun(ttl, es[i])) && es[j].checked < es[i].at + Lifetime(ttl)
  {
    i := EntryWasStarted(ttl, es, j, es[j].kind, es[j].id);
  }

  /** With fresh ids every ceremony is taken at most once. */
  lemma TakenOnce(ttl: nat, es: seq<Event>, j: nat, k: nat)
    requires FreshIds(es) && j < k && TakenAt(ttl, es, j) && TakenAt(ttl, es, k)
    ensures es[j].kind != es[k].kind || es[j].id != es[k].id
  {
    var i := TakenWasStarted(ttl, es, j);
    var l := TakenWasStarted(ttl, es, k);
    assert Starts(es[i], es[j].kind, es[j].id) && Starts(es[l], es[k].kind, es[k].id);
    assert Takes(es[j], es[j].kind, es[j].id);
  }

  /** Pruning never takes a pending ceremony away before it expires. */
  lemma {:induction false} PendingIsStored(ttl: nat, es: seq<Event>, i: nat, n: nat, kind: Kind, id: string)
    requires FreshIds(es) && Timed(es) && Pending(es, i, n, kind, id) && n < |es| && es[n].at < es[i].at + Lifetime(ttl)
    ensures id in Table(After(ttl, es, n), kind) && Table(After(ttl, es, n), kind)[id] == Begun(ttl, es[i])
  {
    if i < n - 1 {
      assert es[n - 1].at <= es[n].at;
      PendingIsStored(ttl, es, i, n - 1, kind, id);
      assert !Takes(es[n - 1], kind, id);
      assert TimeOf(es[n - 1]);
    }
  }

  /** With fresh ids a take succeeds exactly when its ceremony was started before, has not
      been taken since, and has not expired when the take checks. */
  lemma TakenIff(ttl: nat, es: seq<Event>, j: nat)
    requires FreshIds(es) && Timed(es) && j < |es| && es[j].Take?
    ensures TakenAt(ttl, es, j)
       <==> exists i: nat :: && Pending(es, i, j, es[j].kind, es[j].id)
                             && es[j].checked < es[i].at + (if ttl < TWO_63 then ttl else 300000)
  {
    if TakenAt(ttl, es, j) {
      var i := TakenWasStarted(ttl, es, j);
    }
    if i: nat :| Pending(es, i, j, es[j].kind, es[j].id) && es[j].checked < es[i].at + Lifetime(ttl) {
      assert TimeOf(es[j]);
      PendingIsStored(ttl, es, i, j, es[j].kind, es[j].id);
    }
  }

  // ----- Pruning cannot be seen -----

  /** The same run, had nothing ever been pruned. */
  function Unpruned(ttl: nat, es: seq<Event>, n: nat): Tables
    requires n <= |es|
  {
    if n == 0 then Tables(map[], map[])
    else if es[n - 1].Prune? then Unpruned(ttl, es, n - 1)
    else Step(ttl, Unpruned(ttl, es, n - 1), es[n - 1])
  }

  /** The pruned table lacks only what has expired. */
  predicate Matches(p: map<string, Ceremony>, u: map<string, Ceremony>, now: int) {
    && (forall id :: id in p ==> id in u && u[id] == p[id])
    && (forall id :: id in u && u[id].expiresAt > now ==> id in p)
  }

  predicate MatchesAll(p: Tables, u: Tables, now: int) {
    Matches(p.registrations, u.registrations, now) && Matches(p.authentications, u.authentications, now)
  }

  lemma StepKeepsMatch(ttl: nat, p: Tables, u: Tables, e: Event, now: int)
    requires MatchesAll(p, u, now) && now <= e.at && TimeOf(e)
    ensures MatchesAll(Step(ttl, p, e), if e.Prune? then u else Step(ttl, u, e), e.at)
  {
    hide Matches, Pruned;
    LaterMatches(p.registrations, u.registrations, now, e.at);
    LaterMatches(p.authentications, u.authentications, now, e.at);
    var p', u' := Table(p, e.kind), Table(u, e.kind);
    match e
    case Start(_, _, id, _, _) => PutMatches(p', u', e.at, id, Begun(ttl, e));
    case Take(_, _, id, _) => RemoveMatches(p', u', e.at, id);
    case Prune(_, _, earlier) => PruneMatches(p', u', e.at, earlier);
  }

  lemma LaterMatches(p: map<string, Ceremony>, u: map<string, Ceremony>, now: int, later: int)
    requires Matches(p, u, now) && now <= later
    ensures Matches(p, u, later)
  {
  }

  lemma PutMatches(p: map<string, Ceremony>, u: map<string, Ceremony>, now: int, id: string, c: Ceremony)
    requires Matches(p, u, now)
    ensures Matches(p[id := c], u[id := c], now)
  {
  }

  lemma RemoveMatches(p: map<string, Ceremony>, u: map<string, Ceremony>, now: int, id: string)
    requires Matches(p, u, now)
    ensures Matches(p - {id}, u - {id}, now)
  {
  }

  lemma PruneMatches(p: map<string, Ceremony>, u: map<string, Ceremony>, now: int, earlier: int)
    requires Matches(p, u, now) && earlier <= now
    ensures Matches(Pruned(p, earlier), u, now)
  {
  }

  lemma {:induction false} PrunedMatches(ttl: nat, es: seq<Event>, n: nat)
    requires Timed(es) && n < |es|
    ensures MatchesAll(After(ttl, es, n), Unpruned(ttl, es, n), es[n].at)
  {
    if n > 0 {
      PrunedMatches(ttl, es, n - 1);
      StepKeepsMatch(ttl, After(ttl, es, n - 1), Unpruned(ttl, es, n - 1), es[n - 1], es[n - 1].at);
      assert es[n - 1].at <= es[n].at;
    }
  }

  /** Every take is answered as it would be without pruning. */
  lemma PruningInvisible(ttl: nat, es: seq<Event>, j: nat)
    requires Timed(es) && j < |es| && es[j].Take?
    ensures Taken(After(ttl, es, j), es[j]) == Taken(Unpruned(ttl, es, j), es[j])
  {
    PrunedMatches(ttl, es, j);
    assert TimeOf(es[j]);
  }

  // ----- Finish calls -----

  /** What a finish call answers at the take `j` of a run. */
  function FinishAt(ttl: nat, es: seq<Event>, j: nat, b: Backend): Result<string, Error>
    requires j < |es| && es[j].Take?
  {
    FinishOf(b, Taken(After(ttl, es, j), es[j]))
  }

  /** Tokens only ever go to the user for whom the ceremony was started, which was pending, and
      before it expired. */
  lemma TokensGoToStarter(ttl: nat, es: seq<Event>, j: nat, b: Backend) returns (i: nat)
    requires j < |es| && es[j].Take? && FinishAt(ttl, es, j, b).Ok?
    ensures Pending(es, i, j, es[j].kind, es[j].id)
    ensures es[j].checked < es[i].at + (if ttl < TWO_63 then ttl else 300000)
    ensures FinishAt(ttl, es, j, b) == b.issue(es[i].user) && b.verify(es[i].state).Some?
  {
    i := TakenWasStarted(ttl, es, j);
  }

  /** And they do get them: a pending, unexpired ceremony whose credential verifies, and whose use
      can be recorded, is finished with the starter's tokens. */
  lemma StarterGetsTokens(ttl: nat, es: seq<Event>, i: nat, j: nat, b: Backend, result: nat, keys: seq<nat>)
    requires FreshIds(es) && Timed(es) && j < |es| && es[j].Take? && Pending(es, i, j, es[j].kind, es[j].id)
    requires es[j].checked < es[i].at + (if ttl < TWO_63 then ttl else 300000)
    requires b.verify(es[i].state) == Some(result) && b.passkeys(es[i].user) == Ok(keys)
    requires RecordUse(b, es[i].user, keys, result).None?
    ensures FinishAt(ttl, es, j, b) == b.issue(es[i].user)
  {
    hide RecordUse;
    assert TimeOf(es[j]);
    PendingIsStored(ttl, es, i, j, es[j].kind, es[j].id);
  }

  /** With fresh ids a ceremony brings tokens at most once. */
  lemma TokensOnce(ttl: nat, es: seq<Event>, j: nat, k: nat, b: Backend, b': Backend)
    requires FreshIds(es) && j < k < |es| && es[j].Take? && es[k].Take?
    requires FinishAt(ttl, es, j, b).Ok? && FinishAt(ttl, es, k, b').Ok?
    ensures es[j].kind != es[k].kind || es[j].id != es[k].id
  {
    TakenOnce(ttl, es, j, k);
  }

  /** Every finish call is answered as in the same run without pruning. */
  lemma FinishIgnoresPruning(ttl: nat, es: seq<Event>, j: nat, b: Backend)
    requires Timed(es) && j < |es| && es[j].Take?
    ensures FinishAt(ttl, es, j, b) == FinishOf(b, Taken(Unpruned(ttl, es, j), es[j]))
  {
    PruningInvisible(ttl, es, j);
  }
}
