/** Redis as the provider uses it: a map from keys to values with expiry times, and a clock
    in milliseconds. Every command, and every Lua script, is one atomic step on one key. The
    key type is a parameter, so that the flat store of strings can be compared with a store
    that keeps the four families of records apart. */
module RedisStore {
  import opened Prelude
  import opened RedisKeys

  datatype Value = Number(n: nat) | Mark

  datatype Entry = Entry(value: Value, expiry: Option<nat>)

  datatype Db<!K(==)> = Db(store: map<K, Entry>, clock: nat)

  datatype Op =
    | Get | Exists | Ttl | Del
    | SetEx(v: Value, secs: nat)
    | AcceptCount(count: nat, secs: nat)  // the nonce-count script
    | CountFailure(secs: nat)             // the INCR / EXPIRE script

  datatype Cmd<K> = Tick(ms: nat) | At(k: K, op: Op)

  datatype Reply = Nil | Found(v: Value) | Flag(b: bool) | Int(i: int) | Done | Refused

  /** A record answers until its expiry, and still in the millisecond of its expiry. */
  predicate Alive(slot: Option<Entry>, clock: nat) {
    slot.Some? && (slot.value.expiry.Some? ==> clock <= slot.value.expiry.value)
  }

  /** TTL answers whole seconds, rounded to the nearest. */
  function TtlReply(slot: Option<Entry>, clock: nat): int {
    if !Alive(slot, clock) then -2
    else if slot.value.expiry.None? then -1
    else (slot.value.expiry.value - clock + 500) / 1000
  }

  function Timed(v: Value, secs: nat, clock: nat): Option<Entry> { Some(Entry(v, Some(clock + secs * 1000))) }

  /** What a command does to the record under its key, and what it answers. */
  function Apply(slot: Option<Entry>, clock: nat, op: Op): (r: (Option<Entry>, Reply)) {
    var alive := Alive(slot, clock);
    match op
    case Get => (slot, if alive then Found(slot.value.value) else Nil)
    case Exists => (slot, Flag(alive))
    case Ttl => (slot, Int(TtlReply(slot, clock)))
    case Del => (None, Done)
    case SetEx(v, secs) => if secs == 0 then (slot, Refused) else (Timed(v, secs, clock), Done)
    case AcceptCount(count, secs) =>
      if alive && (slot.value.value.Mark? || slot.value.value.n >= count) then
        (slot, if slot.value.value.Mark? then Refused else Flag(false))
      else if secs == 0 then (slot, Refused)
      else (Timed(Number(count), secs, clock), Flag(true))
    case CountFailure(secs) =>
      // INCR keeps a live counter's expiry; a new counter gets one, and EXPIRE 0 deletes it.
      if alive then
        if slot.value.value.Mark? then (slot, Refused)
        else
          var n := slot.value.value.n + 1;
          if n == 1 then (if secs == 0 then None else Timed(Number(1), secs, clock), Int(1))
          else (Some(Entry(Number(n), slot.value.expiry)), Int(n))
      else (if secs == 0 then None else Timed(Number(1), secs, clock), Int(1))
  }

  function Slot<K>(db: Db<K>, k: K): Option<Entry> { if k in db.store then Some(db.store[k]) else None }

  predicate Live<K>(db: Db<K>, k: K) { Alive(Slot(db, k), db.clock) }

  function Store<K>(db: Db<K>, k: K, slot: Option<Entry>): Db<K> {
    db.(store := if slot.Some? then db.store[k := slot.value] else db.store - {k})
  }

  /** One command: the store after it, and its answer. */
  function Exec<K>(db: Db<K>, c: Cmd<K>): (r: (Db<K>, Reply)) {
    match c
    case Tick(ms) => (db.(clock := db.clock + ms), Done)
    case At(k, op) => var (slot, reply) := Apply(Slot(db, k), db.clock, op); (Store(db, k, slot), reply)
  }

  function Run<K>(db: Db<K>, cs: seq<Cmd<K>>): (r: Db<K>) {
    if cs == [] then db else Exec(Run(db, cs[..|cs| - 1]), cs[|cs| - 1]).0
  }

  /** The store before command `i`, and that command's answer. */
  function Before<K>(db: Db<K>, cs: seq<Cmd<K>>, i: nat): (r: Db<K>)
    requires i <= |cs|
  {
    Run(db, cs[..i])
  }

  function Answer<K>(db: Db<K>, cs: seq<Cmd<K>>, i: nat): (r: Reply)
    requires i < |cs|
  {
    Exec(Before(db, cs, i), cs[i]).1
  }

  lemma NextState<K>(db: Db<K>, cs: seq<Cmd<K>>, i: nat)
    requires i < |cs|
    ensures Before(db, cs, i + 1) == Exec(Before(db, cs, i), cs[i]).0
  {
    assert cs[..i + 1][..i] == cs[..i];
  }

  /** The clock never goes back. */
  lemma {:induction false} ClockAdvances<K>(db: Db<K>, cs: seq<Cmd<K>>, i: nat, j: nat)
    requires i <= j <= |cs|
    ensures Before(db, cs, i).clock <= Before(db, cs, j).clock
  {
    if i < j {
      ClockAdvances(db, cs, i, j - 1);
      NextState(db, cs, j - 1);
    }
  }

  lemma {:induction false} RunAppend<K>(db: Db<K>, a: seq<Cmd<K>>, b: seq<Cmd<K>>)
    ensures Run(db, a + b) == Run(Run(db, a), b)
    decreases |b|
  {
    if b == [] {
      assert a + b == a;
    } else {
      var n := |b| - 1;
      assert (a + b)[..|a| + n] == a + b[..n];
      RunAppend(db, a, b[..n]);
    }
  }

  // ----- The flat store refines the store of four families -----

  function RenderCmd(ns: string, c: Cmd<Key>): Cmd<string> {
    match c
    case Tick(ms) => Tick(ms)
    case At(k, op) => At(Render(ns, k), op)
  }

  function NameCmd(c: Cmd<Key>): Cmd<Name> {
    match c
    case Tick(ms) => Tick(ms)
    case At(k, op) => At(Named(k), op)
  }

  function RenderAll(ns: string, cs: seq<Cmd<Key>>): (r: seq<Cmd<string>>)
    ensures |r| == |cs| && forall i :: 0 <= i < |cs| ==> r[i] == RenderCmd(ns, cs[i])
  {
    seq(|cs|, i requires 0 <= i < |cs| => RenderCmd(ns, cs[i]))
  }

  function NameAll(cs: seq<Cmd<Key>>): (r: seq<Cmd<Name>>)
    ensures |r| == |cs| && forall i :: 0 <= i < |cs| ==> r[i] == NameCmd(cs[i])
  {
    seq(|cs|, i requires 0 <= i < |cs| => NameCmd(cs[i]))
  }

  /** The flat store holds exactly the records of the structured one, each under its name. */
  ghost predicate Represents(ns: string, flat: Db<string>, db: Db<Name>) {
    flat.clock == db.clock && forall n :: Slot(flat, RenderName(ns, n)) == Slot(db, n)
  }

  lemma StepRefines(ns: string, flat: Db<string>, db: Db<Name>, c: Cmd<Key>)
    requires Represents(ns, flat, db)
    ensures Represents(ns, Exec(flat, RenderCmd(ns, c)).0, Exec(db, NameCmd(c)).0)
    ensures Exec(flat, RenderCmd(ns, c)).1 == Exec(db, NameCmd(c)).1
  {
    hide RenderName, Named;
    if c.At? {
      var k := Named(c.k);
      var slot := Apply(Slot(db, k), db.clock, c.op).0;
      forall n ensures Slot(Store(flat, RenderName(ns, k), slot), RenderName(ns, n)) == Slot(Store(db, k, slot), n) {
        RenderNameInjective(ns, n, k);
      }
    }
  }

  lemma {:induction false} StillRepresents(ns: string, flat: Db<string>, db: Db<Name>, cs: seq<Cmd<Key>>)
    requires Represents(ns, flat, db)
    ensures Represents(ns, Run(flat, RenderAll(ns, cs)), Run(db, NameAll(cs)))
  {
    if cs != [] {
      hide Represents, Exec;
      var n := |cs| - 1;
      assert RenderAll(ns, cs)[..n] == RenderAll(ns, cs[..n]) && NameAll(cs)[..n] == NameAll(cs[..n]);
      StillRepresents(ns, flat, db, cs[..n]);
      StepRefines(ns, Run(flat, RenderAll(ns, cs[..n])), Run(db, NameAll(cs[..n])), cs[n]);
    }
  }

  /** Over any sequence of commands the flat store represents the structured one, and every
      command is answered alike: it could not be told from four separate maps, the rate records
      known by the text of their keys. */
  lemma FlatStoreRefines(ns: string, flat: Db<string>, db: Db<Name>, cs: seq<Cmd<Key>>, i: nat)
    requires Represents(ns, flat, db) && i < |cs|
    ensures Represents(ns, Before(flat, RenderAll(ns, cs), i), Before(db, NameAll(cs), i))
    ensures Answer(flat, RenderAll(ns, cs), i) == Answer(db, NameAll(cs), i)
  {
    hide Represents, Exec;
    assert RenderAll(ns, cs)[..i] == RenderAll(ns, cs[..i]) && NameAll(cs)[..i] == NameAll(cs[..i]);
    StillRepresents(ns, flat, db, cs[..i]);
    StepRefines(ns, Before(flat, RenderAll(ns, cs), i), Before(db, NameAll(cs), i), cs[i]);
  }

  // ----- Records that are alone under their name -----

  /** No command of the run is about another record with the same name. */
  ghost predicate Alone(cs: seq<Cmd<Key>>, k: Key) {
    forall i :: 0 <= i < |cs| && cs[i].At? && Named(cs[i].k) == Named(k) ==> cs[i].k == k
  }

  /** Nonces, counts and tokens always are; rate records are if all rate keys are safe. */
  lemma AloneWhen(cs: seq<Cmd<Key>>, k: Key)
    requires k.Rate? ==> Safe(k) && forall i :: 0 <= i < |cs| && cs[i].At? && cs[i].k.Rate? ==> Safe(cs[i].k)
    ensures Alone(cs, k)
  {
    hide Canonical, MarkerFree;
    forall i | 0 <= i < |cs| && cs[i].At? && Named(cs[i].k) == Named(k) ensures cs[i].k == k {
      if k.Rate? { MarkerFreeIsUnique(k.rate, cs[i].k.rate); }
    }
  }

  /** For such a record the flat store is the store keyed by whole records: the run leaves the
      same in both. So what holds of that record over all runs holds of the flat store. */
  lemma {:induction false} AloneRefines(ns: string, flat: Db<string>, db: Db<Key>, cs: seq<Cmd<Key>>, k: Key)
    requires flat.clock == db.clock && Slot(flat, Render(ns, k)) == Slot(db, k) && Alone(cs, k)
    ensures var flat', db' := Run(flat, RenderAll(ns, cs)), Run(db, cs);
            flat'.clock == db'.clock && Slot(flat', Render(ns, k)) == Slot(db', k)
  {
    hide Render, Named, Apply;
    if cs != [] {
      var n := |cs| - 1;
      assert RenderAll(ns, cs)[..n] == RenderAll(ns, cs[..n]);
      AloneRefines(ns, flat, db, cs[..n], k);
      if cs[n].At? { NameIff(ns, cs[n].k, k); }
    }
  }

  lemma NameIff(ns: string, a: Key, b: Key)
    ensures Render(ns, a) == Render(ns, b) <==> Named(a) == Named(b)
  {
    hide RenderName, Named;
    RenderNameInjective(ns, Named(a), Named(b));
  }

  /** Its commands are answered alike. */
  lemma AloneAnswers(ns: string, flat: Db<string>, db: Db<Key>, cs: seq<Cmd<Key>>, i: nat)
    requires i < |cs| && cs[i].At? && flat.clock == db.clock
    requires Slot(flat, Render(ns, cs[i].k)) == Slot(db, cs[i].k) && Alone(cs, cs[i].k)
    ensures Answer(flat, RenderAll(ns, cs), i) == Answer(db, cs, i)
    ensures Before(flat, RenderAll(ns, cs), i).clock == Before(db, cs, i).clock
  {
    hide Render, Named, Apply;
    assert RenderAll(ns, cs)[..i] == RenderAll(ns, cs[..i]);
    AloneRefines(ns, flat, db, cs[..i], cs[i].k);
  }
}
