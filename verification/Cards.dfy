/** Cards and their append-only log: decide_card, card_record_activity and list_cards of commands.rs,
    and the decisions that arrive from Telegram and the phone (telegram_inbound.rs, mobile_bridge.rs). */
module Cards {
  import opened Options

  type Id = string

  datatype Decision = Approved | Rejected | NeedsChanges | Snoozed | Read | Dismissed
  datatype Status = Open | Closed
  datatype Card = Card(status: Status, decision: Option<Decision>, snoozeUntil: Option<int>, reopened: bool, read: bool)

  const NEW_CARD := Card(Open, None, None, false, false)

  /** Decisions of the inbox carry the idempotency key they came with; remote ones are logged under
      their own kinds. */
  datatype Event =
    | Decided(card: Id, decision: Decision, key: Option<string>)
    | Remote(card: Id, decision: Decision)
    | Reopened(card: Id)

  datatype Db = Db(cards: map<Id, Card>, log: seq<Event>)

  function StatusOf(d: Decision): Status {
    if d == Snoozed || d == Read || d == Dismissed then Open else Closed
  }

  // ── decide_card ─────────────────────────────────────────────────────────────

  /** Where the transaction breaks off, if it does. */
  datatype Fault = Fine | BeginFails | UpdateFails | AuditFails | CommitFails

  /** `until` is the validated time of a snooze, None when it is not a time; the look-up of the key
      counts an error as "not seen". */
  datatype Decide = Decide(card: Id, decision: Decision, until: Option<int>, key: Option<string>, lookupFails: bool, fault: Fault)

  predicate Seen(log: seq<Event>, card: Id, key: string) {
    exists e | e in log :: e.Decided? && e.card == card && e.key == Some(key)
  }

  function Write(c: Card, d: Decision, until: int): Card {
    match d
    case Snoozed => c.(decision := Some(d), status := Open, snoozeUntil := Some(until), reopened := false)
    case Read => c.(read := true)
    case Dismissed => c.(decision := Some(d), status := Open)
    case _ => c.(decision := Some(d), status := Closed, snoozeUntil := None)
  }

  predicate Replayed(log: seq<Event>, a: Decide) {
    a.key.Some? && !a.lookupFails && Seen(log, a.card, a.key.value)
  }

  predicate Succeeds(log: seq<Event>, a: Decide) {
    a.fault != BeginFails && (Replayed(log, a) || (a.fault == Fine && (a.decision == Snoozed ==> a.until.Some?)))
  }

  function AfterDeciding(db: Db, a: Decide): Db {
    if !Succeeds(db.log, a) || Replayed(db.log, a) then db
    else
      var until := if a.until.Some? then a.until.value else 0;
      Db(if a.card in db.cards then db.cards[a.card := Write(db.cards[a.card], a.decision, until)] else db.cards,
         db.log + [Decided(a.card, a.decision, a.key)])
  }

  // ── The other writers ───────────────────────────────────────────────────────

  predicate IsAsleep(c: Card, now: int) {
    c.snoozeUntil.Some? && c.snoozeUntil.value > now
  }

  function Woken(c: Card, now: int): Card {
    if IsAsleep(c, now) then c.(snoozeUntil := None, reopened := true) else c
  }

  /** What can go wrong when activity is recorded: a failing look-up counts as "not snoozed". */
  datatype Trouble = Trouble(lookupFails: bool, updateFails: bool, auditFails: bool)

  predicate SeenAsleep(cards: map<Id, Card>, id: Id, now: int, t: Trouble) {
    !t.lookupFails && id in cards && cards[id].status == Open && IsAsleep(cards[id], now)
  }

  function Activity(db: Db, id: Id, now: int, t: Trouble): Db {
    if t.updateFails || id !in db.cards then db
    else
      Db(db.cards[id := Woken(db.cards[id], now)],
         if SeenAsleep(db.cards, id, now, t) && !t.auditFails then db.log + [Reopened(id)] else db.log)
  }

  function Expired(c: Card, now: int): Card {
    if c.snoozeUntil.Some? && c.snoozeUntil.value <= now && c.status == Open then c.(snoozeUntil := None) else c
  }

  function Listed(db: Db, now: int): Db {
    db.(cards := map id | id in db.cards :: Expired(db.cards[id], now))
  }

  /** Telegram and the phone write decision and status only; the log entry comes after, and a failure
      to write it is ignored. */
  function RemoteDecided(db: Db, id: Id, d: Decision, auditFails: bool): Db {
    Db(if id in db.cards then db.cards[id := db.cards[id].(decision := Some(d), status := StatusOf(d))] else db.cards,
       if auditFails then db.log else db.log + [Remote(id, d)])
  }

  // ── The database object and its commands ────────────────────────────────────

  class Store {
    var cards: map<Id, Card>
    var log: seq<Event>

    function State(): Db
      reads this
    {
      Db(cards, log)
    }

    constructor ()
      ensures State() == Db(map[], [])
    {
      cards, log := map[], [];
    }

    /** Card and log entry are written to the transaction and appear together at the commit. */
    method DecideCard(a: Decide) returns (ok: bool)
      modifies this
      ensures State() == AfterDeciding(old(State()), a)
      ensures ok == Succeeds(old(log), a)
    {
      if a.fault == BeginFails { return false; }
      var txCards, txLog := cards, log;
      if a.key.Some? && !a.lookupFails && Seen(txLog, a.card, a.key.value) { return true; }
      match a.decision {
        case Snoozed =>
          if a.until.None? { return false; }
          if a.fault == UpdateFails { return false; }
          if a.card in txCards {
            var c := txCards[a.card];
            txCards := txCards[a.card := c.(decision := Some(Snoozed), status := Open, snoozeUntil := a.until, reopened := false)];
          }
        case Read =>
          if a.fault == UpdateFails { return false; }
          if a.card in txCards { txCards := txCards[a.card := txCards[a.card].(read := true)]; }
        case Dismissed =>
          if a.fault == UpdateFails { return false; }
          if a.card in txCards {
            txCards := txCards[a.card := txCards[a.card].(decision := Some(Dismissed), status := Open)];
          }
        case _ =>
          if a.fault == UpdateFails { return false; }
          if a.card in txCards {
            var c := txCards[a.card];
            txCards := txCards[a.card := c.(decision := Some(a.decision), status := StatusOf(a.decision), snoozeUntil := None)];
          }
      }
      if a.fault == AuditFails { return false; }
      txLog := txLog + [Decided(a.card, a.decision, a.key)];
      if a.fault == CommitFails { return false; }
      cards, log := txCards, txLog;
      return true;
    }

    /** The card wakes whether or not the look-up before saw it asleep; the answer and the log entry
        depend on that look-up, and an entry that cannot be written is an error after the fact. */
    method RecordActivity(id: Id, now: int, t: Trouble) returns (ok: bool, wasSnoozed: bool)
      modifies this
      ensures State() == Activity(old(State()), id, now, t)
      ensures ok <==> !t.updateFails && !(t.auditFails && SeenAsleep(old(cards), id, now, t))
      ensures wasSnoozed <==> ok && SeenAsleep(old(cards), id, now, t)
    {
      wasSnoozed := !t.lookupFails && id in cards && cards[id].status == Open && IsAsleep(cards[id], now);
      if t.updateFails { return false, false; }
      if id in cards { cards := cards[id := Woken(cards[id], now)]; }
      if wasSnoozed {
        if t.auditFails { return false, false; }
        log := log + [Reopened(id)];
      }
      return true, wasSnoozed;
    }

    method RemoteDecide(id: Id, d: Decision, updateFails: bool, auditFails: bool) returns (ok: bool)
      modifies this
      ensures State() == if updateFails then old(State()) else RemoteDecided(old(State()), id, d, auditFails)
      ensures ok == !updateFails
    {
      if updateFails { return false; }
      if id in cards { cards := cards[id := cards[id].(decision := Some(d), status := StatusOf(d))]; }
      if !auditFails { log := log + [Remote(id, d)]; }
      return true;
    }
  }

  // ── Runs ────────────────────────────────────────────────────────────────────

  datatype Action =
    | Create(id: Id)
    | Deciding(decide: Decide)
    | Acting(id: Id, now: int, trouble: Trouble)
    | Listing(now: int)
    | Remotely(id: Id, decision: Decision, auditFails: bool)

  /** New cards have new identifiers; the remote channels know no `read` or `dismissed`. */
  predicate Legal(db: Db, a: Action) {
    match a
    case Create(id) => id !in db.cards && forall e | e in db.log :: e.card != id
    case Remotely(_, d, _) => d != Read && d != Dismissed
    case _ => true
  }

  function Apply(db: Db, a: Action): Db {
    match a
    case Create(id) => db.(cards := db.cards[id := NEW_CARD])
    case Deciding(d) => AfterDeciding(db, d)
    case Acting(id, now, t) => Activity(db, id, now, t)
    case Listing(now) => Listed(db, now)
    case Remotely(id, d, f) => RemoteDecided(db, id, d, f)
  }

  predicate LegalRun(db: Db, run: seq<Action>)
    decreases |run|
  {
    run == [] || (Legal(db, run[0]) && LegalRun(Apply(db, run[0]), run[1..]))
  }

  function After(db: Db, run: seq<Action>): Db
    decreases |run|
  {
    if run == [] then db else After(Apply(db, run[0]), run[1..])
  }

  const EMPTY := Db(map[], [])

  // ── The table is a fold of the log ──────────────────────────────────────────

  predicate Speaks(e: Event, id: Id) {
    e.card == id && ((e.Decided? && e.decision != Read) || e.Remote?)
  }

  /** The last word on a card; a new card is open and undecided. */
  function Verdict(log: seq<Event>, id: Id): (Option<Decision>, Status) {
    if log == [] then (None, Open)
    else
      var e := log[|log| - 1];
      if Speaks(e, id) then (Some(e.decision), StatusOf(e.decision)) else Verdict(log[..|log| - 1], id)
  }

  ghost predicate IsFold(db: Db) {
    forall id | id in db.cards :: (db.cards[id].decision, db.cards[id].status) == Verdict(db.log, id)
  }

  /** A remote decision that is written to the card but not to the log, and is news. */
  predicate LosesWord(db: Db, a: Action) {
    && a.Remotely? && a.auditFails && a.id in db.cards
    && !(db.cards[a.id].decision == Some(a.decision) && db.cards[a.id].status == StatusOf(a.decision))
  }

  lemma VerdictMore(log: seq<Event>, e: Event, id: Id)
    ensures Verdict(log + [e], id) == if Speaks(e, id) then (Some(e.decision), StatusOf(e.decision)) else Verdict(log, id)
  {
    assert (log + [e])[..|log|] == log;
  }

  lemma {:induction false} NothingSaid(log: seq<Event>, id: Id)
    requires forall e | e in log :: e.card != id
    ensures Verdict(log, id) == (None, Open)
  {
    if log == [] {
    } else {
      assert log[|log| - 1] in log;
      NothingSaid(log[..|log| - 1], id);
    }
  }

  /** A step keeps the table a fold of the log exactly if it loses no word. */
  lemma FoldStep(db: Db, a: Action)
    requires IsFold(db) && Legal(db, a)
    ensures IsFold(Apply(db, a)) <==> !LosesWord(db, a)
  {
    var db' := Apply(db, a);
    match a
    case Create(id) => NothingSaid(db.log, id);
    case Deciding(d) => FoldDecide(db, d);
    case Acting(id, now, t) =>
      forall i ensures Verdict(db.log + [Reopened(id)], i) == Verdict(db.log, i) { VerdictMore(db.log, Reopened(id), i); }
    case Listing(now) =>
    case Remotely(id, d, f) => FoldRemote(db, id, d, f);
  }

  lemma FoldDecide(db: Db, d: Decide)
    requires IsFold(db)
    ensures IsFold(AfterDeciding(db, d))
  {
    var e := Decided(d.card, d.decision, d.key);
    forall i ensures Verdict(db.log + [e], i) == if Speaks(e, i) then (Some(d.decision), StatusOf(d.decision)) else Verdict(db.log, i) {
      VerdictMore(db.log, e, i);
    }
  }

  lemma FoldRemote(db: Db, id: Id, d: Decision, auditFails: bool)
    requires IsFold(db)
    ensures IsFold(RemoteDecided(db, id, d, auditFails)) <==> !LosesWord(db, Remotely(id, d, auditFails))
  {
    var e := Remote(id, d);
    var db' := RemoteDecided(db, id, d, auditFails);
    forall i ensures Verdict(db.log + [e], i) == if i == id then (Some(d), StatusOf(d)) else Verdict(db.log, i) {
      VerdictMore(db.log, e, i);
    }
    if LosesWord(db, Remotely(id, d, auditFails)) {
      assert (db'.cards[id].decision, db'.cards[id].status) != Verdict(db'.log, id);
    }
  }

  predicate NoWordLost(db: Db, run: seq<Action>)
    decreases |run|
  {
    run == [] || (!LosesWord(db, run[0]) && NoWordLost(Apply(db, run[0]), run[1..]))
  }

  /** Over any run in which every remote decision reaches the log, whatever else fails, the decision
      and status of every card are those of the last event that speaks about it. */
  lemma {:induction false} TableIsFoldOfLog(db: Db, run: seq<Action>)
    requires IsFold(db) && LegalRun(db, run) && NoWordLost(db, run)
    ensures IsFold(After(db, run))
    decreases |run|
  {
    if run == [] {
    } else {
      FoldStep(db, run[0]);
      TableIsFoldOfLog(Apply(db, run[0]), run[1..]);
    }
  }

  /** Commands of the inbox alone never lose a word. */
  lemma {:induction false} InboxRunsAreFolds(db: Db, run: seq<Action>)
    requires IsFold(db) && LegalRun(db, run) && forall a | a in run :: !a.Remotely?
    ensures IsFold(After(db, run))
    decreases |run|
  {
    if run == [] {
    } else {
      assert run[0] in run;
      FoldStep(db, run[0]);
      InboxRunsAreFolds(Apply(db, run[0]), run[1..]);
    }
  }

  // Runs of two and three steps.
  lemma RunOf(db: Db, a: Action, rest: seq<Action>) returns (run: seq<Action>)
    requires Legal(db, a) && LegalRun(Apply(db, a), rest)
    ensures run == [a] + rest && LegalRun(db, run) && After(db, run) == After(Apply(db, a), rest)
  {
    run := [a] + rest;
    assert run[1..] == rest;
  }

  /** It happens: any new card that is approved from the phone while the log cannot be written stands
      approved in the table and untouched in the log. */
  lemma PhoneLosesWord(id: Id) returns (run: seq<Action>)
    ensures LegalRun(EMPTY, run) && !IsFold(After(EMPTY, run))
  {
    var created, decided := Create(id), Remotely(id, Approved, true);
    run := RunOf(Apply(EMPTY, created), decided, []);
    run := RunOf(EMPTY, created, run);
    var db := Apply(Apply(EMPTY, created), decided);
    assert id in db.cards && db.cards[id].decision == Some(Approved);
    assert Verdict(db.log, id) == (None, Open);
  }

  // ── Keys ────────────────────────────────────────────────────────────────────

  ghost predicate KeysOnce(log: seq<Event>) {
    forall i, j | 0 <= i < j < |log| && log[i].Decided? && log[j].Decided? && log[i].card == log[j].card && log[i].key.Some? ::
      log[i].key != log[j].key
  }

  /** The look-up failed for a key that is there, and the decision went through all the same. */
  predicate Repeats(db: Db, a: Action) {
    && a.Deciding? && a.decide.key.Some? && a.decide.lookupFails
    && Seen(db.log, a.decide.card, a.decide.key.value) && Succeeds(db.log, a.decide)
  }

  lemma KeysMore(log: seq<Event>, e: Event)
    requires KeysOnce(log)
    ensures KeysOnce(log + [e]) <==> !(e.Decided? && e.key.Some? && Seen(log, e.card, e.key.value))
  {
    var more := log + [e];
    if e.Decided? && e.key.Some? && Seen(log, e.card, e.key.value) {
      var f :| f in log && f.Decided? && f.card == e.card && f.key == Some(e.key.value);
      var i :| 0 <= i < |log| && log[i] == f;
      assert more[i] == f && more[|log|] == e;
    } else {
      forall i, j | 0 <= i < j < |more| && more[i].Decided? && more[j].Decided? && more[i].card == more[j].card && more[i].key.Some?
        ensures more[i].key != more[j].key
      {
        if j == |log| { assert log[i] in log; }
      }
    }
  }

  /** A step keeps every card's keys unique exactly if it is not such a repetition. */
  lemma KeyStep(db: Db, a: Action)
    requires KeysOnce(db.log)
    ensures KeysOnce(Apply(db, a).log) <==> !Repeats(db, a)
  {
    if Apply(db, a).log != db.log {
      match a
      case Deciding(d) => KeysMore(db.log, Decided(d.card, d.decision, d.key));
      case Acting(id, _, _) => KeysMore(db.log, Reopened(id));
      case Remotely(id, d, _) => KeysMore(db.log, Remote(id, d));
      case _ =>
    }
  }

  // A decision with a key, whose look-up works or not.
  function Keyed(id: Id, key: string, lookupFails: bool): Action {
    Deciding(Decide(id, Approved, None, Some(key), lookupFails, Fine))
  }

  /** It happens: the same decision sent twice with one key, the second time with a failing look-up. */
  lemma FailedLookupRepeats(id: Id, key: string) returns (run: seq<Action>)
    ensures LegalRun(EMPTY, run) && !KeysOnce(After(EMPTY, run).log)
  {
    var once, twice := Keyed(id, key, false), Keyed(id, key, true);
    var db := Apply(Apply(EMPTY, Create(id)), once);
    run := RunOf(db, twice, []);
    run := RunOf(Apply(EMPTY, Create(id)), once, run);
    run := RunOf(EMPTY, Create(id), run);
    var log := Apply(db, twice).log;
    assert db.log == [Decided(id, Approved, Some(key))];
    assert log == [Decided(id, Approved, Some(key)), Decided(id, Approved, Some(key))];
    assert log[0].key == log[1].key;
  }

  /** Over any run in which the look-ups work, no key decides a card twice. */
  lemma {:induction false} EachKeyDecidesOnce(db: Db, run: seq<Action>)
    requires KeysOnce(db.log) && forall a | a in run :: a.Deciding? ==> !a.decide.lookupFails
    ensures KeysOnce(After(db, run).log)
    decreases |run|
  {
    if run == [] {
    } else {
      assert run[0] in run;
      KeyStep(db, run[0]);
      EachKeyDecidesOnce(Apply(db, run[0]), run[1..]);
    }
  }

  // ── Snoozing ────────────────────────────────────────────────────────────────

  predicate Sleeps(c: Card) {
    c.snoozeUntil.Some? ==> c.status == Open && !c.reopened
  }

  ghost predicate SnoozesOk(db: Db) {
    forall id | id in db.cards :: Sleeps(db.cards[id])
  }

  /** A remote decision closes a card that is still snoozed. */
  predicate ClosesAsleep(db: Db, a: Action) {
    a.Remotely? && a.id in db.cards && db.cards[a.id].snoozeUntil.Some? && StatusOf(a.decision) == Closed
  }

  /** Only open cards that were not reopened are snoozed, and the one step that spoils it is a remote
      decision that closes a snoozed card: it leaves the snooze behind. */
  lemma SnoozeStep(db: Db, a: Action)
    requires SnoozesOk(db)
    ensures SnoozesOk(Apply(db, a)) <==> !ClosesAsleep(db, a)
  {
    var db' := Apply(db, a);
    if ClosesAsleep(db, a) {
      assert !Sleeps(db'.cards[a.id]);
    } else {
      forall id | id in db'.cards ensures Sleeps(db'.cards[id]) {
        if id in db.cards { assert Sleeps(db.cards[id]); }
      }
    }
  }

  /** It happens: a card that sleeps in the inbox and is approved from the phone. */
  lemma PhoneClosesAsleep(id: Id, until: int) returns (run: seq<Action>)
    ensures LegalRun(EMPTY, run) && !SnoozesOk(After(EMPTY, run))
  {
    var snooze := Deciding(Decide(id, Snoozed, Some(until), None, false, Fine));
    var approve := Remotely(id, Approved, false);
    var db := Apply(Apply(EMPTY, Create(id)), snooze);
    run := RunOf(db, approve, []);
    run := RunOf(Apply(EMPTY, Create(id)), snooze, run);
    run := RunOf(EMPTY, Create(id), run);
    assert !Sleeps(Apply(db, approve).cards[id]);
  }

  lemma {:induction false} InboxKeepsSnoozes(db: Db, run: seq<Action>)
    requires SnoozesOk(db) && forall a | a in run :: !a.Remotely?
    ensures SnoozesOk(After(db, run))
    decreases |run|
  {
    if run == [] {
    } else {
      assert run[0] in run;
      SnoozeStep(db, run[0]);
      InboxKeepsSnoozes(Apply(db, run[0]), run[1..]);
    }
  }

  // ── One activity, one listing ───────────────────────────────────────────────

  /** New activity wakes the card it is about exactly if its snooze still runs, which it marks as reopened,
      and changes nothing else; the log says so if the card was open and the look-up and the log worked. */
  lemma ActivityWakes(db: Db, id: Id, now: int, t: Trouble)
    requires id in db.cards && !t.updateFails
    ensures var c, next := db.cards[id], Activity(db, id, now, t);
            var asleep := c.snoozeUntil.Some? && c.snoozeUntil.value > now;
            && next.cards == db.cards[id := if asleep then c.(snoozeUntil := None, reopened := true) else c]
            && next.log == db.log + (if asleep && c.status == Open && !t.lookupFails && !t.auditFails then [Reopened(id)] else [])
  {
  }

  /** A new card is open, undecided, awake and unread, and no other card or log entry changes for it. */
  lemma NewCards(db: Db, id: Id)
    ensures Apply(db, Create(id)) == Db(db.cards[id := Card(Open, None, None, false, false)], db.log)
  {
  }

  /** Listing drops the snoozes that have run out on open cards, and changes nothing else. */
  lemma ListingWakes(db: Db, now: int)
    ensures var next := Listed(db, now);
            && next.log == db.log && next.cards.Keys == db.cards.Keys
            && forall id | id in db.cards ::
                 var c := db.cards[id];
                 next.cards[id] == if c.status == Open && c.snoozeUntil.Some? && c.snoozeUntil.value <= now
                                   then c.(snoozeUntil := None) else c
  {
  }

  // ── One decision ────────────────────────────────────────────────────────────

  /** All or nothing: a decision that fails, or repeats a known key, changes nothing; any other adds one
      entry to the log, says on the card what that entry says, and leaves every other card alone. */
  lemma DecisionIsAtomic(db: Db, a: Decide)
    requires a.card in db.cards
    ensures !Succeeds(db.log, a) || Replayed(db.log, a) <==> AfterDeciding(db, a) == db
    ensures AfterDeciding(db, a) != db ==>
      && AfterDeciding(db, a).log == db.log + [Decided(a.card, a.decision, a.key)]
      && AfterDeciding(db, a).cards.Keys == db.cards.Keys
      && (forall id | id in db.cards && id != a.card :: AfterDeciding(db, a).cards[id] == db.cards[id])
      && (a.decision == Read ==> AfterDeciding(db, a).cards[a.card] == db.cards[a.card].(read := true))
      && (a.decision != Read ==> var c := AfterDeciding(db, a).cards[a.card];
                                 c.decision == Some(a.decision) && c.status == StatusOf(a.decision))
  {
  }
}
