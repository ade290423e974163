/**
 The store theorems on the runs of the protocol. What a run does to its store is a
 history, and the store answers as the timed map exactly unless some commit extends the
 expiry of a record that a load or a sweep has dropped.
 */
module RunStores {
  import opened Protocol
  import opened SessionValues
  import opened Stores
  import opened TimedMap
  import opened Wrappers

  // ---- The history of a run ----

  function CommitOps(cfg: Config, request: Request, generated: Key): seq<Op> {
    var session := request.auth.session;
    match request.key
    case None => if session.entries == map[] then [] else [Save(generated, session.entries, cfg.ttl)]
    case Some(key) =>
      match session.status
      case Changed => [Update(key, session.entries, cfg.ttl)]
      case Purged => [Delete(key)]
      case Renewed => [Delete(key), Save(generated, session.entries, cfg.ttl)]
      case Unchanged => if cfg.extendOnEveryRequest then [UpdateTtl(key, cfg.ttl)] else []
  }

  function StepOps(cfg: Config, w: World, step: Step): seq<Op> {
    match step
    case Begin(_, cookie, _, _) => if cookie.Some? then [Op.Load(cookie.value)] else []
    case Commit(id, generated) => if id in w.requests then CommitOps(cfg, w.requests[id], generated) else []
    case Sweep => [DeleteExpired]
    case _ => []
  }

  function At(now: int, ops: seq<Op>): seq<Event> {
    seq(|ops|, i requires 0 <= i < |ops| => Event(now, ops[i]))
  }

  function StepEvents(cfg: Config, w: World, step: Step): seq<Event> { At(w.now, StepOps(cfg, w, step)) }

  function RunEvents(cfg: Config, ws: seq<World>, ss: seq<Step>, i: nat): seq<Event>
    requires i <= |ss| <= |ws|
  {
    if i == 0 then [] else RunEvents(cfg, ws, ss, i - 1) + StepEvents(cfg, ws[i - 1], ss[i - 1])
  }

  /** The store is the trio's store of its kind. */
  ghost predicate Mirrors(store: Store, t: Trio) {
    match store
    case Memory(records) => records == t.records
    case Sqlite(rows) => rows == t.rows
  }

  lemma AtShort(now: int, ops: seq<Op>)
    requires |ops| <= 2
    ensures |ops| == 0 ==> At(now, ops) == []
    ensures |ops| == 1 ==> At(now, ops) == [Event(now, ops[0])]
    ensures |ops| == 2 ==> At(now, ops) == [Event(now, ops[0]), Event(now, ops[1])]
  {}

  lemma TrioRunShort(t: Trio, events: seq<Event>)
    requires |events| <= 2
    ensures |events| == 0 ==> TrioRun(t, events) == t
    ensures |events| == 1 ==> TrioRun(t, events) == TrioAfter(t, events[0])
    ensures |events| == 2 ==> TrioRun(t, events) == TrioAfter(TrioAfter(t, events[0]), events[1])
  {
    if |events| == 2 {
      var rest := events[1..];
      assert rest[1..] == [];
      assert TrioRun(t, events) == TrioRun(TrioAfter(t, events[0]), rest);
      assert TrioRun(TrioAfter(t, events[0]), rest) == TrioRun(TrioAfter(TrioAfter(t, events[0]), rest[0]), rest[1..]);
    }
  }

  /** What a step does to the store is what its operations do to the trio. */
  lemma StepMirrors(cfg: Config, w: World, step: Step, t: Trio)
    requires Enabled(cfg, w, step) && Mirrors(w.store, t)
    ensures Mirrors(Next(cfg, w, step).store, TrioRun(t, StepEvents(cfg, w, step)))
  {
    var events := StepEvents(cfg, w, step);
    AtShort(w.now, StepOps(cfg, w, step));
    TrioRunShort(t, events);
  }

  lemma {:induction false} TrioRunConcat(t: Trio, a: seq<Event>, b: seq<Event>)
    ensures TrioRun(t, a + b) == TrioRun(TrioRun(t, a), b)
    decreases |a|
  {
    if a == [] {
      assert a + b == b;
    } else {
      assert (a + b)[1..] == a[1..] + b;
      TrioRunConcat(TrioAfter(t, a[0]), a[1..], b);
    }
  }

  lemma {:induction false} NeverRevivesConcat(c: Comparison, t: Trio, a: seq<Event>, b: seq<Event>)
    ensures NeverRevives(c, t, a + b) <==> NeverRevives(c, t, a) && NeverRevives(c, TrioRun(t, a), b)
    decreases |a|
  {
    if a == [] {
      assert a + b == b;
    } else {
      assert (a + b)[1..] == a[1..] + b;
      NeverRevivesConcat(c, TrioAfter(t, a[0]), a[1..], b);
    }
  }

  lemma {:induction false} ChronologicalConcat(start: int, a: seq<Event>, middle: int, b: seq<Event>, end: int)
    requires Chronological(start, a, middle) && Chronological(middle, b, end)
    ensures Chronological(start, a + b, end)
    decreases |a|
  {
    if a == [] {
      assert a + b == b;
      if b != [] {
        assert start <= b[0].now;
      }
    } else {
      assert (a + b)[1..] == a[1..] + b;
      ChronologicalConcat(a[0].now, a[1..], middle, b, end);
    }
  }

  /** The trio after the first `i` steps of a run. */
  function TrioOf(cfg: Config, ws: seq<World>, ss: seq<Step>, i: nat): Trio
    requires i <= |ss| <= |ws|
  {
    TrioRun(EMPTY, RunEvents(cfg, ws, ss, i))
  }

  lemma TrioStep(cfg: Config, ws: seq<World>, ss: seq<Step>, i: nat)
    requires 0 < i <= |ss| <= |ws|
    ensures TrioOf(cfg, ws, ss, i) == TrioRun(TrioOf(cfg, ws, ss, i - 1), StepEvents(cfg, ws[i - 1], ss[i - 1]))
  {
    TrioRunConcat(EMPTY, RunEvents(cfg, ws, ss, i - 1), StepEvents(cfg, ws[i - 1], ss[i - 1]));
  }

  lemma MirrorsAt(cfg: Config, ws: seq<World>, ss: seq<Step>, i: nat, t: Trio)
    requires IsRun(cfg, ws, ss) && 0 < i < |ws| && Mirrors(ws[i - 1].store, t)
    ensures Mirrors(ws[i].store, TrioRun(t, StepEvents(cfg, ws[i - 1], ss[i - 1])))
    ensures ws[i].store.Memory? <==> ws[i - 1].store.Memory?
  {
    var w, step := ws[i - 1], ss[i - 1];
    assert Enabled(cfg, w, step) && ws[i - 1 + 1] == Next(cfg, w, step);
    StepMirrors(cfg, w, step, t);
  }

  lemma {:induction false} RunMirrors(cfg: Config, ws: seq<World>, ss: seq<Step>, i: nat)
    requires IsRun(cfg, ws, ss) && i < |ws|
    ensures Mirrors(ws[i].store, TrioOf(cfg, ws, ss, i))
  {
    if i > 0 {
      RunMirrors(cfg, ws, ss, i - 1);
      MirrorsAt(cfg, ws, ss, i, TrioOf(cfg, ws, ss, i - 1));
      TrioStep(cfg, ws, ss, i);
    }
  }

  lemma ChronologicalStep(cfg: Config, ws: seq<World>, ss: seq<Step>, i: nat)
    requires IsRun(cfg, ws, ss) && 0 < i < |ws|
    ensures Chronological(ws[i - 1].now, StepEvents(cfg, ws[i - 1], ss[i - 1]), ws[i].now)
  {
    var w, step := ws[i - 1], ss[i - 1];
    assert Enabled(cfg, w, step) && ws[i - 1 + 1] == Next(cfg, w, step);
    AtShort(w.now, StepOps(cfg, w, step));
  }

  lemma {:induction false} RunIsChronological(cfg: Config, ws: seq<World>, ss: seq<Step>, i: nat)
    requires IsRun(cfg, ws, ss) && i < |ws|
    ensures Chronological(ws[0].now, RunEvents(cfg, ws, ss, i), ws[i].now)
  {
    if i > 0 {
      RunIsChronological(cfg, ws, ss, i - 1);
      ChronologicalStep(cfg, ws, ss, i);
      ChronologicalConcat(ws[0].now, RunEvents(cfg, ws, ss, i - 1), ws[i - 1].now,
                          StepEvents(cfg, ws[i - 1], ss[i - 1]), ws[i].now);
    }
  }

  // ---- Keys in flight ----

  /** Every stored key, and every key a request holds, is in the timed map. */
  ghost predicate KeysInMap(w: World, t: Trio) {
    StoredInMap(t) && forall id, key | Holds(w, id, key) :: key in t.m
  }

  predicate StoredInMap(t: Trio) {
    t.records.Keys <= t.m.Keys && t.rows.Keys <= t.m.Keys
  }

  lemma EventKeepsStoredInMap(t: Trio, event: Event)
    requires StoredInMap(t)
    ensures StoredInMap(TrioAfter(t, event))
  {}

  lemma {:induction false} RunKeepsStoredInMap(t: Trio, events: seq<Event>)
    requires StoredInMap(t)
    ensures StoredInMap(TrioRun(t, events))
    decreases |events|
  {
    if events != [] {
      EventKeepsStoredInMap(t, events[0]);
      RunKeepsStoredInMap(TrioAfter(t, events[0]), events[1..]);
    }
  }

  /** Only a commit of its own holder takes a key out of the map. */
  lemma MapKeyStays(cfg: Config, w: World, step: Step, t: Trio, key: Key)
    requires key in t.m && !(step.Commit? && Holds(w, step.id, key))
    ensures key in TrioRun(t, StepEvents(cfg, w, step)).m
  {
    AtShort(w.now, StepOps(cfg, w, step));
    TrioRunShort(t, StepEvents(cfg, w, step));
  }

  lemma HolderStep(cfg: Config, w: World, step: Step, id: RequestId, key: Key)
    requires Inv(cfg, w) && Enabled(cfg, w, step) && OneHolder(w) && Holds(Next(cfg, w, step), id, key)
    ensures Holds(w, id, key) || w.store.Has(key)
    ensures !(step.Commit? && Holds(w, step.id, key))
  {
    if step.Begin? && id == step.id {
      LoadKeeps(w.store, key, w.now);
    }
  }

  lemma StepKeepsKeysInMap(cfg: Config, w: World, step: Step, t: Trio)
    requires Inv(cfg, w) && Enabled(cfg, w, step) && OneHolder(w) && Mirrors(w.store, t) && KeysInMap(w, t)
    ensures KeysInMap(Next(cfg, w, step), TrioRun(t, StepEvents(cfg, w, step)))
  {
    var w', t' := Next(cfg, w, step), TrioRun(t, StepEvents(cfg, w, step));
    RunKeepsStoredInMap(t, StepEvents(cfg, w, step));
    forall id, key | Holds(w', id, key) ensures key in t'.m {
      HolderStep(cfg, w, step, id, key);
      MapKeyStays(cfg, w, step, t, key);
    }
  }

  lemma KeysInMapAt(cfg: Config, ws: seq<World>, ss: seq<Step>, i: nat, t: Trio)
    requires IsSerialRun(cfg, ws, ss) && 0 < i < |ws| && Mirrors(ws[i - 1].store, t) && KeysInMap(ws[i - 1], t)
    ensures KeysInMap(ws[i], TrioRun(t, StepEvents(cfg, ws[i - 1], ss[i - 1])))
  {
    var w, step := ws[i - 1], ss[i - 1];
    RunKeepsInv(cfg, ws, ss, i - 1);
    SerialRunKeepsOneHolder(cfg, ws, ss, i - 1);
    assert Enabled(cfg, w, step) && ws[i - 1 + 1] == Next(cfg, w, step);
    StepKeepsKeysInMap(cfg, w, step, t);
  }

  lemma {:induction false} RunKeepsKeysInMap(cfg: Config, ws: seq<World>, ss: seq<Step>, i: nat)
    requires IsSerialRun(cfg, ws, ss) && i < |ws|
    ensures KeysInMap(ws[i], TrioOf(cfg, ws, ss, i))
  {
    if i > 0 {
      RunKeepsKeysInMap(cfg, ws, ss, i - 1);
      RunMirrors(cfg, ws, ss, i - 1);
      TrioStep(cfg, ws, ss, i);
      KeysInMapAt(cfg, ws, ss, i, TrioOf(cfg, ws, ss, i - 1));
    }
  }

  // ---- What makes a run differ from the timed map ----

  /** The step extends, beyond the present, the expiry of a record that is gone although its request held it. */
  ghost predicate ExtendsGone(cfg: Config, w: World, step: Step) {
    && step.Commit? && step.id in w.requests && w.requests[step.id].key.Some?
    && w.requests[step.id].auth.session.status.Unchanged? && cfg.extendOnEveryRequest
    && !w.store.Has(w.requests[step.id].key.value)
    && w.store.Rounded(w.now + cfg.ttl) > w.store.Rounded(w.now)
  }

  /** And the record was not deleted but dropped, by a load or a sweep: the map still has it. */
  ghost predicate ExtendsDropped(cfg: Config, w: World, step: Step, m: Records) {
    ExtendsGone(cfg, w, step) && w.requests[step.id].key.value in m
  }

  /** The comparison of a store of this kind with the timed map. */
  function ComparisonOf(store: Store): Comparison {
    if store.Memory? then MemoryToMap else SqliteToMap
  }

  function MapLoad(store: Store, m: Records, key: Key, now: int): Option<State> {
    if store.Memory? then TimedLoad(m, key, now) else RoundedLoad(m, key, now)
  }

  /** Every load, now or later, is that of the map, in whole seconds if the store is SQLite. */
  ghost predicate Answers(w: World, m: Records) {
    forall key, later | w.now <= later :: w.store.Get(key, later) == MapLoad(w.store, m, key, later)
  }

  /** The timed map after the first `i` steps of a run. */
  function MapOf(cfg: Config, ws: seq<World>, ss: seq<Step>, i: nat): (m: Records)
    requires i <= |ss| <= |ws|
    ensures m == TrioOf(cfg, ws, ss, i).m
  {
    TrioRunParts(EMPTY, RunEvents(cfg, ws, ss, i));
    TimedRun(map[], RunEvents(cfg, ws, ss, i))
  }

  lemma StepRevivesIff(cfg: Config, w: World, step: Step, t: Trio)
    requires Enabled(cfg, w, step) && Mirrors(w.store, t)
    ensures NeverRevives(ComparisonOf(w.store), t, StepEvents(cfg, w, step)) <==> !ExtendsDropped(cfg, w, step, t.m)
  {
    var c, ops := ComparisonOf(w.store), StepOps(cfg, w, step);
    var events := StepEvents(cfg, w, step);
    AtShort(w.now, ops);
    if |events| == 1 {
      assert events[1..] == [];
    } else if |events| == 2 {
      assert events[1..][1..] == [];
      assert NeverRevives(c, TrioAfter(t, events[0]), events[1..]);
    }
  }

  lemma RevivesAt(cfg: Config, ws: seq<World>, ss: seq<Step>, i: nat)
    requires IsRun(cfg, ws, ss) && 0 < i < |ws|
    ensures var c, t := ComparisonOf(ws[i].store), TrioOf(cfg, ws, ss, i - 1);
            NeverRevives(c, t, StepEvents(cfg, ws[i - 1], ss[i - 1])) <==>
              !ExtendsDropped(cfg, ws[i - 1], ss[i - 1], t.m)
    ensures ComparisonOf(ws[i].store) == ComparisonOf(ws[i - 1].store)
  {
    var w, step, t := ws[i - 1], ss[i - 1], TrioOf(cfg, ws, ss, i - 1);
    RunMirrors(cfg, ws, ss, i - 1);
    assert Enabled(cfg, w, step);
    StepRevivesIff(cfg, w, step, t);
    MirrorsAt(cfg, ws, ss, i, t);
  }

  /** One more step revives a dropped key if and only if it extends its record. */
  lemma RevivesSoFar(cfg: Config, ws: seq<World>, ss: seq<Step>, i: nat)
    requires IsRun(cfg, ws, ss) && 0 < i < |ws|
    ensures NeverRevives(ComparisonOf(ws[i].store), EMPTY, RunEvents(cfg, ws, ss, i)) <==>
              && NeverRevives(ComparisonOf(ws[i - 1].store), EMPTY, RunEvents(cfg, ws, ss, i - 1))
              && !ExtendsDropped(cfg, ws[i - 1], ss[i - 1], MapOf(cfg, ws, ss, i - 1))
  {
    RevivesAt(cfg, ws, ss, i);
    NeverRevivesConcat(ComparisonOf(ws[i].store), EMPTY, RunEvents(cfg, ws, ss, i - 1),
                       StepEvents(cfg, ws[i - 1], ss[i - 1]));
  }

  /** A run revives a dropped key if and only if some commit extends the record of one. */
  lemma {:induction false} RunRevivesIff(cfg: Config, ws: seq<World>, ss: seq<Step>, i: nat)
    requires IsRun(cfg, ws, ss) && i < |ws|
    ensures NeverRevives(ComparisonOf(ws[i].store), EMPTY, RunEvents(cfg, ws, ss, i)) <==>
              forall l | 0 <= l < i :: !ExtendsDropped(cfg, ws[l], ss[l], MapOf(cfg, ws, ss, l))
  {
    if i > 0 {
      RunRevivesIff(cfg, ws, ss, i - 1);
      RevivesSoFar(cfg, ws, ss, i);
    }
  }

  lemma UnrevivedAnswers(cfg: Config, ws: seq<World>, ss: seq<Step>, i: nat)
    requires IsRun(cfg, ws, ss) && i < |ws|
    requires NeverRevives(ComparisonOf(ws[i].store), EMPTY, RunEvents(cfg, ws, ss, i))
    ensures Answers(ws[i], MapOf(cfg, ws, ss, i))
  {
    var c, history := ComparisonOf(ws[i].store), RunEvents(cfg, ws, ss, i);
    RunMirrors(cfg, ws, ss, i);
    RunIsChronological(cfg, ws, ss, i);
    TracksRun(c, EMPTY, ws[0].now, history, ws[i].now);
    forall key, later | ws[i].now <= later
      ensures ws[i].store.Get(key, later) == MapLoad(ws[i].store, MapOf(cfg, ws, ss, i), key, later)
    {
      TracksAgree(c, TrioRun(EMPTY, history), ws[i].now, key, later);
    }
  }

  lemma ExtendedDiffers(cfg: Config, w: World, step: Step, t: Trio)
    requires Enabled(cfg, w, step) && Mirrors(w.store, t) && ExtendsDropped(cfg, w, step, t.m)
    ensures !Answers(Next(cfg, w, step), TrioRun(t, StepEvents(cfg, w, step)).m)
  {
    var w', key := Next(cfg, w, step), w.requests[step.id].key.value;
    var event := Event(w.now, UpdateTtl(key, cfg.ttl));
    var t' := TrioAfter(t, event);
    AtShort(w.now, StepOps(cfg, w, step));
    assert StepEvents(cfg, w, step) == [event];
    TrioRunShort(t, [event]);
    StepMirrors(cfg, w, step, t);
    RevivingDisagrees(ComparisonOf(w.store), t, event);
    assert w'.store.Get(key, w.now) != MapLoad(w'.store, t'.m, key, w.now);
  }

  lemma ExtensionShows(cfg: Config, ws: seq<World>, ss: seq<Step>, i: nat)
    requires IsRun(cfg, ws, ss) && i < |ss| && ExtendsDropped(cfg, ws[i], ss[i], MapOf(cfg, ws, ss, i))
    ensures !Answers(ws[i + 1], MapOf(cfg, ws, ss, i + 1))
  {
    RunMirrors(cfg, ws, ss, i);
    assert Enabled(cfg, ws[i], ss[i]) && ws[i + 1] == Next(cfg, ws[i], ss[i]);
    TrioStep(cfg, ws, ss, i + 1);
    ExtendedDiffers(cfg, ws[i], ss[i], TrioOf(cfg, ws, ss, i));
  }

  // ---- Main results ----

  /**
   In any interleaving and with either store, every load in every world is that of the
   timed map, if and only if no commit extends the expiry of a dropped record.
   */
  lemma RunAnswersIff(cfg: Config, ws: seq<World>, ss: seq<Step>, i: nat)
    requires IsRun(cfg, ws, ss) && i < |ws|
    ensures (forall l | 0 <= l <= i :: Answers(ws[l], MapOf(cfg, ws, ss, l))) <==>
              (forall l | 0 <= l < i :: !ExtendsDropped(cfg, ws[l], ss[l], MapOf(cfg, ws, ss, l)))
  {
    if l: nat :| l < i && ExtendsDropped(cfg, ws[l], ss[l], MapOf(cfg, ws, ss, l)) {
      ExtensionShows(cfg, ws, ss, l);
    } else {
      forall l | 0 <= l <= i ensures Answers(ws[l], MapOf(cfg, ws, ss, l)) {
        RunRevivesIff(cfg, ws, ss, l);
        UnrevivedAnswers(cfg, ws, ss, l);
      }
    }
  }

  /** The map has every stored key, and still has one that a later load or sweep dropped. */
  lemma DroppedKeyInMap(cfg: Config, ws: seq<World>, ss: seq<Step>, i: nat, key: Key)
    requires IsRun(cfg, ws, ss) && i < |ss| && ws[i].store.Has(key) && !ss[i].Commit?
    ensures key in MapOf(cfg, ws, ss, i + 1)
  {
    RunMirrors(cfg, ws, ss, i);
    RunKeepsStoredInMap(EMPTY, RunEvents(cfg, ws, ss, i));
    MapKeyStays(cfg, ws[i], ss[i], TrioOf(cfg, ws, ss, i), key);
    TrioStep(cfg, ws, ss, i + 1);
  }

  lemma SerialExtension(cfg: Config, ws: seq<World>, ss: seq<Step>, i: nat)
    requires IsSerialRun(cfg, ws, ss) && i < |ss|
    ensures ExtendsDropped(cfg, ws[i], ss[i], MapOf(cfg, ws, ss, i)) <==> ExtendsGone(cfg, ws[i], ss[i])
  {
    RunKeepsKeysInMap(cfg, ws, ss, i);
    if ExtendsGone(cfg, ws[i], ss[i]) {
      assert Holds(ws[i], ss[i].id, ws[i].requests[ss[i].id].key.value);
    }
  }

  /** In a serial run, if and only if no commit extends the expiry of a record that is gone. */
  lemma SerialRunAnswersIff(cfg: Config, ws: seq<World>, ss: seq<Step>, i: nat)
    requires IsSerialRun(cfg, ws, ss) && i < |ws|
    ensures (forall l | 0 <= l <= i :: Answers(ws[l], MapOf(cfg, ws, ss, l))) <==>
              (forall l | 0 <= l < i :: !ExtendsGone(cfg, ws[l], ss[l]))
  {
    RunAnswersIff(cfg, ws, ss, i);
    forall l | 0 <= l < i
      ensures ExtendsDropped(cfg, ws[l], ss[l], MapOf(cfg, ws, ss, l)) <==> ExtendsGone(cfg, ws[l], ss[l])
    {
      SerialExtension(cfg, ws, ss, l);
    }
  }

  // ---- The in-memory store ----

  /** Records of the in-memory store stay while a request holds their key. */
  ghost predicate HeldIsStored(w: World) {
    w.store.Memory? ==> forall id, key | Holds(w, id, key) :: w.store.Has(key)
  }

  lemma SerialStepKeepsHeld(cfg: Config, w: World, step: Step)
    requires Inv(cfg, w) && Enabled(cfg, w, step) && Serial(w, step) && OneHolder(w) && HeldIsStored(w)
    ensures HeldIsStored(Next(cfg, w, step))
  {
    var w' := Next(cfg, w, step);
    if w.store.Memory? {
      forall id, key | Holds(w', id, key) ensures w'.store.Has(key) {
        if step.Begin? && id == step.id {
          LoadKeeps(w.store, key, w.now);
        } else {
          assert Holds(w, id, key);
          assert step.Commit? ==> !Holds(w, step.id, key);
        }
      }
    }
  }

  lemma {:induction false} SerialRunKeepsHeld(cfg: Config, ws: seq<World>, ss: seq<Step>, i: nat)
    requires IsSerialRun(cfg, ws, ss) && i < |ws|
    ensures HeldIsStored(ws[i])
  {
    if i > 0 {
      var w, step := ws[i - 1], ss[i - 1];
      SerialRunKeepsHeld(cfg, ws, ss, i - 1);
      RunKeepsInv(cfg, ws, ss, i - 1);
      SerialRunKeepsOneHolder(cfg, ws, ss, i - 1);
      assert Enabled(cfg, w, step) && Serial(w, step) && ws[i - 1 + 1] == Next(cfg, w, step);
      SerialStepKeepsHeld(cfg, w, step);
    }
  }

  lemma {:induction false} SameKind(cfg: Config, ws: seq<World>, ss: seq<Step>, i: nat, j: nat)
    requires IsRun(cfg, ws, ss) && i <= j < |ws|
    ensures ws[i].store.Memory? <==> ws[j].store.Memory?
  {
    if i < j {
      SameKind(cfg, ws, ss, i, j - 1);
      assert ws[j - 1 + 1] == Next(cfg, ws[j - 1], ss[j - 1]);
    }
  }

  /** In serial runs on the in-memory store that never happens: every load in every world is that of the timed map. */
  lemma MemoryRunAnswersAsTimedMap(cfg: Config, ws: seq<World>, ss: seq<Step>, i: nat, key: Key, later: int)
    requires IsSerialRun(cfg, ws, ss) && i < |ws| && ws[i].store.Memory? && ws[i].now <= later
    ensures forall l | 0 <= l < i :: !ExtendsGone(cfg, ws[l], ss[l])
    ensures ws[i].store.Get(key, later) == TimedLoad(TimedRun(map[], RunEvents(cfg, ws, ss, i)), key, later)
  {
    forall l | 0 <= l < i ensures !ExtendsGone(cfg, ws[l], ss[l]) {
      SameKind(cfg, ws, ss, l, i);
      SerialRunKeepsHeld(cfg, ws, ss, l);
      if ss[l].Commit? && ss[l].id in ws[l].requests && ws[l].requests[ss[l].id].key.Some? {
        assert Holds(ws[l], ss[l].id, ws[l].requests[ss[l].id].key.value);
      }
    }
    SerialRunAnswersIff(cfg, ws, ss, i);
    assert Answers(ws[i], MapOf(cfg, ws, ss, i));
  }
}
