/**
 The control plane's schema migration: any number of runners, each able to fail or
 stop at any statement, against one database. Proved for every list of schemas whose
 references point backwards; `SyslensSchemas` is one.
 */
module Migration {
  import opened Prelude

  /** A CREATE TABLE IF NOT EXISTS statement: the table and those its foreign keys name. */
  datatype Schema = Schema(table: string, refs: set<string>)

  /** What matters of the database; migration k of the list is recorded under its own name. */
  datatype Db = Db(migrationTable: bool, tables: set<string>, recorded: set<nat>)

  /** The statement a runner is about to issue. */
  datatype Runner =
    | Pinging
    | CheckingTable
    | CreatingTable
    | ConfirmingTable
    | Looking(i: nat)    // isMigrationApplied: does the migration table exist?
    | Querying(i: nat)   // isMigrationApplied: is migration i recorded?
    | Executing(i: nat)
    | Recording(i: nat)
    | Finished           // returned nil
    | Failed             // returned an error

  /** An error is returned before the statement takes effect, or after. */
  datatype Fault = NoFault | Refused | ReplyLost

  function TablesOf(schemas: seq<Schema>): set<string> {
    set s | s in schemas :: s.table
  }

  ghost predicate WellOrdered(schemas: seq<Schema>) {
    && (forall i, j | 0 <= i < j < |schemas| :: schemas[i].table != schemas[j].table)
    && forall i | 0 <= i < |schemas| :: schemas[i].refs <= TablesOf(schemas[..i])
  }

  function Advance(schemas: seq<Schema>, i: nat): Runner {
    if i < |schemas| then Looking(i) else Finished
  }

  /** Postgres skips an existing table and refuses one whose references are missing. */
  function Created(db: Db, s: Schema): Option<Db> {
    if s.table in db.tables then Some(db)
    else if s.refs <= db.tables then Some(db.(tables := db.tables + {s.table}))
    else None
  }

  /** The migration name is a primary key. */
  function Recorded(db: Db, i: nat): Option<Db> {
    if db.migrationTable && i !in db.recorded then Some(db.(recorded := db.recorded + {i})) else None
  }

  predicate Ended(runner: Runner) {
    runner.Finished? || runner.Failed?
  }

  /** One statement without a fault. */
  function Issued(schemas: seq<Schema>, db: Db, runner: Runner): (Db, Runner) {
    match runner
    case Pinging => (db, CheckingTable)
    case CheckingTable => (db, if db.migrationTable then ConfirmingTable else CreatingTable)
    case CreatingTable => (db.(migrationTable := true), ConfirmingTable)
    case ConfirmingTable => (db, if db.migrationTable then Advance(schemas, 0) else Failed)
    case Looking(i) => (db, if db.migrationTable then Querying(i) else Executing(i))
    case Querying(i) => (db, if i in db.recorded then Advance(schemas, i + 1) else Executing(i))
    case Executing(i) =>
      if i < |schemas| && Created(db, schemas[i]).Some? then (Created(db, schemas[i]).value, Recording(i))
          else (db, Failed)
    case Recording(i) =>
      if Recorded(db, i).Some? then (Recorded(db, i).value, Advance(schemas, i + 1)) else (db, Failed)
    case Finished => (db, Finished)
    case Failed => (db, Failed)
  }

  function Next(schemas: seq<Schema>, db: Db, runner: Runner, fault: Fault): (Db, Runner) {
    if Ended(runner) then (db, runner)
    else
      match fault
      case NoFault => Issued(schemas, db, runner)
      case Refused => (db, Failed)
      case ReplyLost => (Issued(schemas, db, runner).0, Failed)
  }

  // ----- concurrent runners -----

  /** Runners are created as they start; one that stops simply takes no further step. */
  datatype System = System(db: Db, runners: map<nat, Runner>)

  function RunnerOf(s: System, r: nat): Runner {
    if r in s.runners then s.runners[r] else Pinging
  }

  function Stepped(schemas: seq<Schema>, s: System, r: nat, fault: Fault): System {
    var (db, runner) := Next(schemas, s.db, RunnerOf(s, r), fault);
    System(db, s.runners[r := runner])
  }

  ghost predicate Leads(schemas: seq<Schema>, s: System, schedule: seq<(nat, Fault)>, t: System)
    decreases |schedule|
  {
    if schedule == [] then s == t
    else Leads(schemas, Stepped(schemas, s, schedule[0].0, schedule[0].1), schedule[1..], t)
  }

  /** No table of the list exists yet, nothing is recorded, no runner has started. */
  ghost predicate Initial(schemas: seq<Schema>, s: System) {
    s.db.recorded == {} && s.db.tables !! TablesOf(schemas) && s.runners == map[]
  }

  ghost predicate Reachable(schemas: seq<Schema>, s: System) {
    exists init, schedule :: Initial(schemas, init) && Leads(schemas, init, schedule, s)
  }

  /** The first `created` tables exist and the first `recorded` migrations are recorded, no others of the list. */
  ghost predicate Prefixes(schemas: seq<Schema>, db: Db, recorded: nat, created: nat) {
    && recorded <= created <= recorded + 1
    && created <= |schemas|
    && (forall i | 0 <= i < |schemas| :: schemas[i].table in db.tables <==> i < created)
    && (forall i: nat :: i in db.recorded <==> i < recorded)
    && (recorded > 0 ==> db.migrationTable)
  }

  /** Where a runner may be, given how far the database is. */
  ghost predicate RunnerFits(schemas: seq<Schema>, db: Db, runner: Runner, recorded: nat, created: nat) {
    match runner
    case Looking(i) => db.migrationTable && i < |schemas| && i <= recorded
    case Querying(i) => db.migrationTable && i < |schemas| && i <= recorded
    case Executing(i) => db.migrationTable && i < |schemas| && i <= recorded
    case Recording(i) => db.migrationTable && i < |schemas| && i <= recorded && i < created
    case Finished => recorded == |schemas| && db.migrationTable
    case _ => true
  }

  ghost predicate Inv(schemas: seq<Schema>, s: System, recorded: nat, created: nat) {
    && Prefixes(schemas, s.db, recorded, created)
    && forall r: nat :: RunnerFits(schemas, s.db, RunnerOf(s, r), recorded, created)
  }

  /** The tables a schema refers to exist whenever all earlier ones do. */
  lemma ReferencesPresent(schemas: seq<Schema>, db: Db, recorded: nat, created: nat, i: nat)
    requires WellOrdered(schemas) && Prefixes(schemas, db, recorded, created)
    requires i < |schemas| && i <= created
    ensures schemas[i].refs <= db.tables
    ensures Created(db, schemas[i]).Some?
  {
    forall t | t in schemas[i].refs ensures t in db.tables {
      assert t in TablesOf(schemas[..i]);
      var s :| s in schemas[..i] && s.table == t;
      var j :| 0 <= j < i && schemas[j] == s;
    }
  }

  lemma NextKeepsPrefixes(schemas: seq<Schema>, db: Db, runner: Runner, fault: Fault, recorded: nat, created: nat)
    returns (recorded': nat, created': nat)
    requires WellOrdered(schemas)
    requires Prefixes(schemas, db, recorded, created) && RunnerFits(schemas, db, runner, recorded, created)
    ensures recorded <= recorded' && created <= created'
    ensures Prefixes(schemas, Next(schemas, db, runner, fault).0, recorded', created')
    ensures RunnerFits(schemas, Next(schemas, db, runner, fault).0, Next(schemas, db, runner, fault).1, recorded',
        created')
    ensures db.migrationTable ==> Next(schemas, db, runner, fault).0.migrationTable
  {
    recorded', created' := recorded, created;
    if fault.Refused? {
      return;
    }
    match runner
    case Executing(i) =>
      ReferencesPresent(schemas, db, recorded, created, i);
      if i == created {
        created' := created + 1;
      }
    case Recording(i) =>
      if i == recorded {
        recorded' := recorded + 1;
      }
    case _ =>
  }

  lemma StepKeepsInv(schemas: seq<Schema>, s: System, r: nat, fault: Fault, recorded: nat, created: nat)
    returns (recorded': nat, created': nat)
    requires WellOrdered(schemas) && Inv(schemas, s, recorded, created)
    ensures Inv(schemas, Stepped(schemas, s, r, fault), recorded', created')
    ensures recorded <= recorded' && created <= created'
  {
    var u := Stepped(schemas, s, r, fault);
    assert RunnerFits(schemas, s.db, RunnerOf(s, r), recorded, created);
    recorded', created' := NextKeepsPrefixes(schemas, s.db, RunnerOf(s, r), fault, recorded, created);
    forall q: nat ensures RunnerFits(schemas, u.db, RunnerOf(u, q), recorded', created') {
      assert RunnerFits(schemas, s.db, RunnerOf(s, q), recorded, created);
    }
  }

  lemma {:induction false} RunKeepsInv(
    schemas: seq<Schema>, s: System, schedule: seq<(nat, Fault)>, t: System, recorded: nat, created: nat)
    returns (recorded': nat, created': nat)
    requires WellOrdered(schemas) && Inv(schemas, s, recorded, created) && Leads(schemas, s, schedule, t)
    ensures Inv(schemas, t, recorded', created') && recorded <= recorded' && created <= created'
    decreases |schedule|
  {
    recorded', created' := recorded, created;
    if schedule == [] {
    } else {
      var u := Stepped(schemas, s, schedule[0].0, schedule[0].1);
      recorded', created' := StepKeepsInv(schemas, s, schedule[0].0, schedule[0].1, recorded, created);
      recorded', created' := RunKeepsInv(schemas, u, schedule[1..], t, recorded', created');
    }
  }

  /**
   Under any number of runners, any interleaving and any faults, the created tables and
   the recorded migrations are prefixes of the list, at most one apart; no CREATE ever
   lacks a table it refers to; and a nil return means everything is created and recorded.
   */
  lemma {:induction false} MigrationSafety(schemas: seq<Schema>, s: System) returns (recorded: nat, created: nat)
    requires WellOrdered(schemas) && Reachable(schemas, s)
    ensures Prefixes(schemas, s.db, recorded, created)
    ensures forall r: nat | RunnerOf(s, r).Executing? ::
              RunnerOf(s, r).i < |schemas| && schemas[RunnerOf(s, r).i].refs <= s.db.tables
    ensures forall r: nat | RunnerOf(s, r).Finished? :: recorded == created == |schemas| && s.db.migrationTable
  {
    var init, schedule :| Initial(schemas, init) && Leads(schemas, init, schedule, s);
    forall i | 0 <= i < |schemas| ensures schemas[i].table !in init.db.tables {
      assert schemas[i].table in TablesOf(schemas);
    }
    recorded, created := RunKeepsInv(schemas, init, schedule, s, 0, 0);
    forall r: nat ensures RunnerFits(schemas, s.db, RunnerOf(s, r), recorded, created)
                  ensures RunnerOf(s, r).Executing? ==>
                            RunnerOf(s, r).i < |schemas| && schemas[RunnerOf(s, r).i].refs <= s.db.tables
    {
      if RunnerOf(s, r).Executing? {
        ReferencesPresent(schemas, s.db, recorded, created, RunnerOf(s, r).i);
      }
    }
  }

  /** A runner that has not yet decided to execute anything. */
  predicate Harmless(runner: Runner) {
    !runner.CreatingTable? && !runner.Executing? && !runner.Recording?
  }

  predicate RunnerInList(schemas: seq<Schema>, runner: Runner) {
    runner.Looking? || runner.Querying? ==> runner.i < |schemas|
  }

  /** Once everything is recorded, a runner that starts later executes nothing, whatever the others do. */
  lemma {:induction false} LaterRunExecutesNothing(schemas: seq<Schema>, s: System, schedule: seq<(nat, Fault)>,
      t: System, r: nat)
    requires Leads(schemas, s, schedule, t)
    requires s.db.migrationTable && (forall i: nat | i < |schemas| :: i in s.db.recorded)
    requires Harmless(RunnerOf(s, r)) && RunnerInList(schemas, RunnerOf(s, r))
    ensures Harmless(RunnerOf(t, r))
    decreases |schedule|
  {
    if schedule == [] {
    } else {
      var u := Stepped(schemas, s, schedule[0].0, schedule[0].1);
      LaterRunExecutesNothing(schemas, u, schedule[1..], t, r);
    }
  }

  /** Once any runner has returned nil, a runner starting afterwards executes nothing. */
  lemma NilReturnIsFinal(schemas: seq<Schema>, s: System, finished: nat, schedule: seq<(nat, Fault)>, t: System, r: nat)
    requires WellOrdered(schemas) && Reachable(schemas, s)
    requires RunnerOf(s, finished).Finished? && RunnerOf(s, r).Pinging?
    requires Leads(schemas, s, schedule, t)
    ensures Harmless(RunnerOf(t, r))
  {
    var recorded, created := MigrationSafety(schemas, s);
    LaterRunExecutesNothing(schemas, s, schedule, t, r);
  }

  // ----- somebody succeeds -----

  /** A runner about to deal with the first migration that is not recorded, or through with all. */
  predicate InLead(schemas: seq<Schema>, runner: Runner, recorded: nat) {
    match runner
    case Looking(i) => i == recorded
    case Querying(i) => i == recorded
    case Executing(i) => i == recorded
    case Recording(i) => i == recorded
    case Finished => recorded == |schemas|
    case _ => false
  }

  /** Where a runner may be if nothing fails by itself and `first` migrations were recorded at the start. */
  ghost predicate Unfailing(db: Db, runner: Runner, first: nat) {
    && (runner.ConfirmingTable? ==> db.migrationTable)
    && (runner.Executing? || runner.Recording? ==> first <= runner.i)
  }

  /**
   One statement without a fault: who records takes the lead, who is in the lead keeps it, and only
   who lost it fails.
   */
  lemma StatementInRace(schemas: seq<Schema>, db: Db, runner: Runner, first: nat, recorded: nat, created: nat)
    returns (recorded': nat, created': nat)
    requires WellOrdered(schemas) && Prefixes(schemas, db, recorded, created) && first <= recorded
    requires RunnerFits(schemas, db, runner, recorded, created) && Unfailing(db, runner, first)
    ensures var (after, next) := Next(schemas, db, runner, NoFault);
            && Prefixes(schemas, after, recorded', created') && RunnerFits(schemas, after, next, recorded', created')
            && Unfailing(after, next, first) && (db.migrationTable ==> after.migrationTable)
            && (recorded' == recorded || (recorded' == recorded + 1 && InLead(schemas, next, recorded')))
            && (recorded' == recorded && InLead(schemas, runner, recorded) ==> InLead(schemas, next, recorded))
            && (recorded' == recorded == first && !runner.Failed? ==> !next.Failed?)
    ensures recorded <= recorded' && created <= created'
  {
    recorded', created' := recorded, created;
    match runner
    case Executing(i) =>
      ReferencesPresent(schemas, db, recorded, created, i);
      if i == created {
        created' := created + 1;
      }
    case Recording(i) =>
      if i == recorded {
        recorded' := recorded + 1;
      }
    case _ =>
  }

  /** Until something new is recorded nobody fails, and afterwards somebody is in the lead. */
  ghost predicate Promising(schemas: seq<Schema>, s: System, first: nat, recorded: nat) {
    && first <= recorded
    && if recorded == first then forall r: nat :: !RunnerOf(s, r).Failed?
       else exists r: nat :: InLead(schemas, RunnerOf(s, r), recorded)
  }

  ghost predicate RaceInv(schemas: seq<Schema>, s: System, first: nat, recorded: nat, created: nat) {
    && Inv(schemas, s, recorded, created) && Promising(schemas, s, first, recorded)
    && forall r: nat :: Unfailing(s.db, RunnerOf(s, r), first)
  }

  lemma PromiseKept(schemas: seq<Schema>, s: System, r: nat, first: nat, recorded: nat, recorded': nat)
    requires Promising(schemas, s, first, recorded)
    requires var runner, next := RunnerOf(s, r), RunnerOf(Stepped(schemas, s, r, NoFault), r);
             && (recorded' == recorded || (recorded' == recorded + 1 && InLead(schemas, next, recorded')))
             && (recorded' == recorded && InLead(schemas, runner, recorded) ==> InLead(schemas, next, recorded))
             && (recorded' == recorded == first && !runner.Failed? ==> !next.Failed?)
    ensures Promising(schemas, Stepped(schemas, s, r, NoFault), first, recorded')
  {
    var u := Stepped(schemas, s, r, NoFault);
    if recorded' > recorded {
      assert InLead(schemas, RunnerOf(u, r), recorded');
    } else if recorded > first {
      var q: nat :| InLead(schemas, RunnerOf(s, q), recorded);
      assert InLead(schemas, RunnerOf(u, q), recorded);
    } else {
      forall q: nat ensures !RunnerOf(u, q).Failed? {
        assert !RunnerOf(s, q).Failed?;
      }
    }
  }

  lemma RaceStep(schemas: seq<Schema>, s: System, r: nat, first: nat, recorded: nat, created: nat)
    returns (recorded': nat, created': nat)
    requires WellOrdered(schemas) && RaceInv(schemas, s, first, recorded, created)
    ensures RaceInv(schemas, Stepped(schemas, s, r, NoFault), first, recorded', created')
  {
    var u := Stepped(schemas, s, r, NoFault);
    assert RunnerFits(schemas, s.db, RunnerOf(s, r), recorded, created) && Unfailing(s.db, RunnerOf(s, r), first);
    recorded', created' := StatementInRace(schemas, s.db, RunnerOf(s, r), first, recorded, created);
    forall q: nat
      ensures RunnerFits(schemas, u.db, RunnerOf(u, q), recorded', created') && Unfailing(u.db, RunnerOf(u, q), first)
    {
      assert RunnerFits(schemas, s.db, RunnerOf(s, q), recorded, created) && Unfailing(s.db, RunnerOf(s, q), first);
    }
    PromiseKept(schemas, s, r, first, recorded, recorded');
  }

  ghost predicate Faultless(schedule: seq<(nat, Fault)>) {
    forall i | 0 <= i < |schedule| :: schedule[i].1.NoFault?
  }

  lemma {:induction false} RaceRun(
    schemas: seq<Schema>, s: System, schedule: seq<(nat, Fault)>, t: System, first: nat, recorded: nat, created: nat)
    returns (recorded': nat, created': nat)
    requires WellOrdered(schemas) && RaceInv(schemas, s, first, recorded, created)
    requires Leads(schemas, s, schedule, t) && Faultless(schedule)
    ensures RaceInv(schemas, t, first, recorded', created') && s.runners.Keys <= t.runners.Keys
    ensures schedule != [] ==> schedule[0].0 in t.runners
    decreases |schedule|
  {
    recorded', created' := recorded, created;
    if schedule == [] {
    } else {
      assert schedule[0].1.NoFault?;
      assert forall i | 0 <= i < |schedule[1..]| :: schedule[1..][i] == schedule[i + 1];
      recorded', created' := RaceStep(schemas, s, schedule[0].0, first, recorded, created);
      var u := Stepped(schemas, s, schedule[0].0, NoFault);
      recorded', created' := RaceRun(schemas, u, schedule[1..], t, first, recorded', created');
    }
  }

  /**
   Any number of runners race on a database that earlier runs have left with prefixes, and no
   statement meets a fault. Those that lose the race to record a migration fail; but once
   all that started have ended, at least one has returned nil.
   */
  lemma {:induction false} SomebodySucceeds(
    schemas: seq<Schema>, start: System, schedule: seq<(nat, Fault)>, t: System, recorded: nat, created: nat)
    returns (winner: nat)
    requires WellOrdered(schemas) && Prefixes(schemas, start.db, recorded, created) && start.runners == map[]
    requires Leads(schemas, start, schedule, t) && Faultless(schedule) && schedule != []
    requires forall r | r in t.runners :: Ended(t.runners[r])
    ensures winner in t.runners && t.runners[winner].Finished?
  {
    assert forall r: nat :: RunnerOf(start, r) == Pinging;
    var recordedEnd, createdEnd := RaceRun(schemas, start, schedule, t, recorded, recorded, created);
    if recordedEnd == recorded {
      winner := schedule[0].0;
      assert !RunnerOf(t, winner).Failed?;
    } else {
      winner :| InLead(schemas, RunnerOf(t, winner), recordedEnd);
    }
  }

  // ----- the imperative runner -----

  ghost predicate Reaches(schemas: seq<Schema>, s: System, t: System) {
    exists schedule :: Leads(schemas, s, schedule, t)
  }

  lemma {:induction false} LeadsSnoc(
    schemas: seq<Schema>, s: System, schedule: seq<(nat, Fault)>, t: System, r: nat, fault: Fault)
    requires Leads(schemas, s, schedule, t)
    ensures Leads(schemas, s, schedule + [(r, fault)], Stepped(schemas, t, r, fault))
    decreases |schedule|
  {
    if schedule == [] {
      assert [(r, fault)][1..] == [];
    } else {
      var u := Stepped(schemas, s, schedule[0].0, schedule[0].1);
      LeadsSnoc(schemas, u, schedule[1..], t, r, fault);
      assert (schedule + [(r, fault)])[1..] == schedule[1..] + [(r, fault)];
    }
  }

  /** A property of systems that no statement of any runner breaks. */
  ghost predicate Kept(schemas: seq<Schema>, p: System -> bool) {
    forall s, r, fault | p(s) :: p(Stepped(schemas, s, r, fault))
  }

  lemma ReachingIsKept(schemas: seq<Schema>, start: System)
    ensures Kept(schemas, t => Reaches(schemas, start, t))
    ensures Reaches(schemas, start, start)
  {
    forall s, r, fault | Reaches(schemas, start, s) ensures Reaches(schemas, start, Stepped(schemas, s, r, fault)) {
      var schedule :| Leads(schemas, start, schedule, s);
      LeadsSnoc(schemas, start, schedule, s, r, fault);
    }
    assert Leads(schemas, start, [], start);
  }

  /** The first `first` migrations are recorded. */
  ghost predicate HasRecorded(s: System, first: nat) {
    first > 0 ==> s.db.migrationTable && forall i: nat | i < first :: i in s.db.recorded
  }

  /** What holds of prefixes at the start of a run still does after it, and they are no shorter. */
  lemma ReachedInv(schemas: seq<Schema>, s: System, t: System, recorded: nat, created: nat)
    returns (recorded': nat, created': nat)
    requires WellOrdered(schemas) && Inv(schemas, s, recorded, created) && Reaches(schemas, s, t)
    ensures Inv(schemas, t, recorded', created') && recorded <= recorded' && created <= created'
    ensures HasRecorded(t, recorded)
  {
    var schedule :| Leads(schemas, s, schedule, t);
    recorded', created' := RunKeepsInv(schemas, s, schedule, t, recorded, created);
  }

  /** One runner: its number, the fault of its k-th statement, and the others' statements before that. */
  datatype Run = Run(me: nat, fault: nat -> Fault, others: nat -> seq<(nat, Fault)>) {
    /** No other runner moves. */
    ghost predicate Alone() {
      forall k: nat :: others(k) == []
    }

    /** One of the first `n` statements met a fault. */
    ghost predicate Struck(n: nat) {
      exists k: nat | k < n :: !fault(k).NoFault?
    }
  }

  /** The database with the runners at work on it. */
  class Database {
    var migrationTable: bool
    var tables: set<string>
    var recorded: set<nat>
    var runners: map<nat, Runner>

    function View(): Db
      reads this
    {
      Db(migrationTable, tables, recorded)
    }

    function All(): System
      reads this
    {
      System(View(), runners)
    }

    method Become(s: System)
      modifies this
      ensures All() == s
    {
      migrationTable, tables, recorded, runners := s.db.migrationTable, s.db.tables, s.db.recorded, s.runners;
    }

    /** Other runners issue statements; entries of runner `me` are skipped. */
    method Others(schemas: seq<Schema>, me: nat, gap: seq<(nat, Fault)>, ghost p: System -> bool)
      requires Kept(schemas, p) && p(All())
      modifies this
      ensures p(All()) && RunnerOf(All(), me) == old(RunnerOf(All(), me))
      ensures gap == [] ==> All() == old(All())
    {
      for k := 0 to |gap|
        invariant p(All()) && RunnerOf(All(), me) == old(RunnerOf(All(), me))
        invariant k == 0 ==> All() == old(All())
      {
        if gap[k].0 != me {
          Become(Stepped(schemas, All(), gap[k].0, gap[k].1));
        }
      }
    }

    /**
     A statement of runner `me`: its effect, unless it is refused, and whether an error comes
     back. `None` is a statement that fails of itself; a query has no effect.
     */
    method Exec(schemas: seq<Schema>, me: nat, fault: Fault, effect: Option<Db>, next: Runner, ghost p: System -> bool)
      returns (err: bool)
      requires Kept(schemas, p) && p(All()) && !Ended(RunnerOf(All(), me))
      requires Issued(schemas, View(), RunnerOf(All(), me))
               == if effect.Some? then (effect.value, next) else (View(), Failed)
      modifies this
      ensures p(All()) && RunnerOf(All(), me) == if err then Failed else next
      ensures View() == if effect.Some? && !fault.Refused? then effect.value else old(View())
      ensures err <==> effect.None? || !fault.NoFault?
    {
      ghost var after := Stepped(schemas, All(), me, fault);
      if effect.Some? && !fault.Refused? {
        migrationTable, tables, recorded := effect.value.migrationTable, effect.value.tables, effect.value.recorded;
      }
      err := effect.None? || !fault.NoFault?;
      runners := runners[me := if err then Failed else next];
      assert All() == after;
    }

    /** createMigrationTable: asks for the table and creates it if need be. */
    method CreateMigrationTable(schemas: seq<Schema>, run: Run, n: nat, ghost p: System -> bool)
      returns (err: bool, m: nat)
      requires Kept(schemas, p) && p(All()) && RunnerOf(All(), run.me) == CheckingTable
      modifies this
      ensures p(All()) && RunnerOf(All(), run.me) == if err then Failed else ConfirmingTable
      ensures run.Alone() ==> View() == old(View()) || View() == old(View()).(migrationTable := true)
      ensures run.Alone() && !err ==> migrationTable
      ensures run.Alone() && err ==> run.Struck(m)
    {
      m := n;
      Others(schemas, run.me, run.others(m), p);
      var present := migrationTable;
      var next := if present then ConfirmingTable else CreatingTable;
      err := Exec(schemas, run.me, run.fault(m), Some(View()), next, p);
      m := m + 1;
      if err || present {
        return;
      }
      Others(schemas, run.me, run.others(m), p);
      var created := View().(migrationTable := true);
      err := Exec(schemas, run.me, run.fault(m), Some(created), ConfirmingTable, p);
      m := m + 1;
    }

    /** The statements before the loop. */
    method Prepare(schemas: seq<Schema>, run: Run, ghost p: System -> bool) returns (err: bool, n: nat)
      requires Kept(schemas, p) && p(All()) && RunnerOf(All(), run.me) == Pinging
      modifies this
      ensures p(All()) && RunnerOf(All(), run.me) == if err then Failed else Advance(schemas, 0)
      ensures run.Alone() ==> View() == old(View()) || View() == old(View()).(migrationTable := true)
      ensures run.Alone() && !err ==> migrationTable
      ensures run.Alone() && err ==> run.Struck(n)
    {
      n := 0;
      Others(schemas, run.me, run.others(n), p);
      err := Exec(schemas, run.me, run.fault(n), Some(View()), CheckingTable, p);
      n := n + 1;
      if err {
        return;
      }
      err, n := CreateMigrationTable(schemas, run, n, p);
      if err {
        return;
      }
      Others(schemas, run.me, run.others(n), p);
      var present := migrationTable;
      var next := if present then Advance(schemas, 0) else Failed;
      err := Exec(schemas, run.me, run.fault(n), Some(View()), next, p);
      n := n + 1;
      err := err || !present;
    }

    /** Whether migration i is recorded. One that was when the runner started still is. */
    method IsMigrationApplied(schemas: seq<Schema>, i: nat, run: Run, n: nat, ghost p: System -> bool, ghost first: nat)
      returns (err: bool, migrated: bool, m: nat)
      requires Kept(schemas, p) && p(All()) && RunnerOf(All(), run.me) == Looking(i)
      requires forall s | p(s) :: HasRecorded(s, first)
      modifies this
      ensures p(All())
      ensures RunnerOf(All(), run.me) == if err then Failed else if migrated then Advance(schemas, i + 1)
          else Executing(i)
      ensures !err && i < first ==> migrated
      ensures run.Alone() ==> View() == old(View()) && (err ==> run.Struck(m))
      ensures run.Alone() && !err && migrationTable ==> (migrated <==> i in recorded)
    {
      m, migrated := n, false;
      Others(schemas, run.me, run.others(m), p);
      assert HasRecorded(All(), first);
      var present := migrationTable;
      err := Exec(schemas, run.me, run.fault(m), Some(View()), if present then Querying(i) else Executing(i), p);
      m := m + 1;
      if err || !present {
        return;
      }
      Others(schemas, run.me, run.others(m), p);
      assert HasRecorded(All(), first);
      migrated := i in recorded;
      var next := if migrated then Advance(schemas, i + 1) else Executing(i);
      err := Exec(schemas, run.me, run.fault(m), Some(View()), next, p);
      m := m + 1;
    }

    /** The two statements that change the schema. */
    method ExecuteAndRecord(schemas: seq<Schema>, i: nat, run: Run, n: nat, ghost p: System -> bool, ghost c: nat)
      returns (err: bool, m: nat)
      requires Kept(schemas, p) && p(All()) && RunnerOf(All(), run.me) == Executing(i)
      requires i < |schemas| && WellOrdered(schemas)
      requires run.Alone() ==> migrationTable && Prefixes(schemas, View(), i, c)
      modifies this
      ensures p(All()) && RunnerOf(All(), run.me) == if err then Failed else Advance(schemas, i + 1)
      ensures run.Alone() && !err ==> migrationTable && Prefixes(schemas, View(), i + 1, if c == i then i + 1 else c)
      ensures run.Alone() && err ==> run.Struck(m)
    {
      m := n;
      Others(schemas, run.me, run.others(m), p);
      if run.Alone() {
        ReferencesPresent(schemas, View(), i, c, i);
      }
      err := Exec(schemas, run.me, run.fault(m), Created(View(), schemas[i]), Recording(i), p);
      m := m + 1;
      if err {
        return;
      }
      Others(schemas, run.me, run.others(m), p);
      err := Exec(schemas, run.me, run.fault(m), Recorded(View(), i), Advance(schemas, i + 1), p);
      m := m + 1;
    }

    /** One turn of the loop: check, execute, record. Migrations recorded at the start are never executed. */
    method Apply(
      schemas: seq<Schema>, i: nat, run: Run, n: nat, ghost p: System -> bool, ghost first: nat, ghost r: nat,
          ghost c: nat)
      returns (err: bool, ran: bool, m: nat)
      requires Kept(schemas, p) && p(All()) && RunnerOf(All(), run.me) == Looking(i)
      requires i < |schemas| && WellOrdered(schemas) && forall s | p(s) :: HasRecorded(s, first)
      requires run.Alone() ==> migrationTable && Prefixes(schemas, View(), r, c) && i <= r
      modifies this
      ensures p(All()) && RunnerOf(All(), run.me) == if err then Failed else Advance(schemas, i + 1)
      ensures ran ==> first <= i
      ensures run.Alone() && !err ==> (ran <==> i == r) && migrationTable
      ensures run.Alone() && !err ==>
                Prefixes(schemas, View(), if ran then i + 1 else r, if ran && c == i then i + 1 else c)
      ensures run.Alone() && err ==> run.Struck(m)
    {
      var migrated: bool;
      ran := false;
      err, migrated, m := IsMigrationApplied(schemas, i, run, n, p, first);
      if err || migrated {
        return;
      }
      err, m := ExecuteAndRecord(schemas, i, run, m, p, c);
      ran := true;
    }

    /** The list gone through, with the statements and the others' moves in between. */
    method RunMigrations(schemas: seq<Schema>, run: Run, ghost p: System -> bool, ghost r: nat, ghost c: nat)
      returns (err: bool, executed: seq<nat>, n: nat)
      requires Kept(schemas, p) && p(All()) && RunnerOf(All(), run.me).Pinging?
      requires WellOrdered(schemas) && Prefixes(schemas, View(), r, c) && forall s | p(s) :: HasRecorded(s, r)
      modifies this
      ensures p(All()) && RunnerOf(All(), run.me) == if err then Failed else Finished
      ensures forall k | 0 <= k < |executed| :: r <= executed[k] < |schemas|
      ensures forall j, k | 0 <= j < k < |executed| :: executed[j] < executed[k]
      ensures run.Alone() && !err ==>
                |executed| == |schemas| - r && forall k | 0 <= k < |executed| :: executed[k] == r + k
      ensures run.Alone() && err ==> run.Struck(n)
    {
      executed := [];
      err, n := Prepare(schemas, run, p);
      if err {
        return;
      }
      ghost var recordedNow: nat, createdNow: nat := r, c;
      for i := 0 to |schemas|
        invariant p(All()) && RunnerOf(All(), run.me) == Advance(schemas, i) && !err
        invariant run.Alone() ==> migrationTable && Prefixes(schemas, View(), recordedNow, createdNow)
        invariant run.Alone() ==> recordedNow == if i <= r then r else i
        invariant run.Alone() ==>
                    |executed| == recordedNow - r && forall k | 0 <= k < |executed| :: executed[k] == r + k
        invariant forall k | 0 <= k < |executed| :: r <= executed[k] < i
        invariant forall j, k | 0 <= j < k < |executed| :: executed[j] < executed[k]
      {
        var ran: bool;
        err, ran, n := Apply(schemas, i, run, n, p, r, recordedNow, createdNow);
        if err {
          return;
        }
        if ran {
          executed := executed + [i];
          recordedNow := i + 1;
          createdNow := if createdNow == i then i + 1 else createdNow;
        }
      }
    }

    /**
     The method issues exactly the statements of its runner in the step system, other runners
     moving before each of them, so all that is proved of runners holds of it. It never
     executes a migration that was recorded when it started. Alone, it returns nil unless a
     fault strikes, having executed just the migrations that were not recorded.
     */
    method MigrateDatabase(schemas: seq<Schema>, run: Run, ghost r: nat, ghost c: nat)
      returns (err: bool, executed: seq<nat>, n: nat)
      requires WellOrdered(schemas) && Inv(schemas, All(), r, c) && RunnerOf(All(), run.me).Pinging?
      modifies this
      ensures Reaches(schemas, old(All()), All())
      ensures RunnerOf(All(), run.me) == if err then Failed else Finished
      ensures !err ==> Prefixes(schemas, View(), |schemas|, |schemas|)
      ensures forall k | 0 <= k < |executed| :: r <= executed[k] < |schemas|
      ensures forall j, k | 0 <= j < k < |executed| :: executed[j] < executed[k]
      ensures run.Alone() && !err ==>
                |executed| == |schemas| - r && forall k | 0 <= k < |executed| :: executed[k] == r + k
      ensures run.Alone() && err ==> run.Struck(n)
    {
      ghost var start := All();
      ghost var p: System -> bool := t => Reaches(schemas, start, t);
      ReachingIsKept(schemas, start);
      forall s | p(s) ensures HasRecorded(s, r) {
        var recordedThen, createdThen := ReachedInv(schemas, start, s, r, c);
      }
      err, executed, n := RunMigrations(schemas, run, p, r, c);
      ghost var recordedEnd, createdEnd := ReachedInv(schemas, start, All(), r, c);
      assert RunnerFits(schemas, View(), RunnerOf(All(), run.me), recordedEnd, createdEnd);
    }
  }

  // ----- the list the server ships -----

  function SyslensSchemas(): seq<Schema> {
    [ Schema("services", {}),
      Schema("node_groups", {}),
      Schema("nodes", {"node_groups", "services"}),
      Schema("service_nodes", {"services", "nodes"}),
      Schema("users", {}),
      Schema("user_sessions", {"users"}),
      Schema("alerting_rules", {}),
      Schema("notifications", {"alerting_rules", "nodes"}) ]
  }

  const REQUIRED_TABLES: seq<string> :=
    ["users", "user_sessions", "node_groups", "nodes", "services", "service_nodes", "alerting_rules", "notifications"]

  /** The eight names differ in length or in first letter, or in both. */
  lemma SyslensTablesDiffer(i: nat, j: nat)
    requires i < j < |SyslensSchemas()|
    ensures SyslensSchemas()[i].table != SyslensSchemas()[j].table
  {
    var a, b := SyslensSchemas()[i].table, SyslensSchemas()[j].table;
    assert |a| != |b| || a[0] != b[0];
  }

  lemma SyslensReferences(i: nat)
    requires i < |SyslensSchemas()|
    ensures SyslensSchemas()[i].refs <= TablesOf(SyslensSchemas()[..i])
  {
    var s := SyslensSchemas();
    if i == 2 {
      assert s[0] in s[..2] && s[1] in s[..2];
    } else if i == 3 {
      assert s[0] in s[..3] && s[2] in s[..3];
    } else if i == 5 {
      assert s[4] in s[..5];
    } else if i == 7 {
      assert s[2] in s[..7] && s[6] in s[..7];
    } else {
      assert s[i].refs == {};
    }
  }

  lemma SyslensWellOrdered()
    ensures WellOrdered(SyslensSchemas())
  {
    forall i, j | 0 <= i < j < |SyslensSchemas()| ensures SyslensSchemas()[i].table != SyslensSchemas()[j].table {
      SyslensTablesDiffer(i, j);
    }
    forall i | 0 <= i < |SyslensSchemas()| ensures SyslensSchemas()[i].refs <= TablesOf(SyslensSchemas()[..i]) {
      SyslensReferences(i);
    }
  }

  /** The list creates the tables that the table check asks for, and no others. */
  lemma SyslensTables()
    ensures TablesOf(SyslensSchemas()) == set t | t in REQUIRED_TABLES
  {
    var s, q := SyslensSchemas(), REQUIRED_TABLES;
    assert s[0].table == q[4] && s[1].table == q[2] && s[2].table == q[3] && s[3].table == q[5];
    assert s[4].table == q[0] && s[5].table == q[1] && s[6].table == q[6] && s[7].table == q[7];
    forall t ensures t in TablesOf(s) <==> t in q {
      if t in q {
        var k :| 0 <= k < 8 && q[k] == t;
        var j := [4, 5, 1, 2, 0, 3, 6, 7][k];
        assert s[j] in s && s[j].table == t;
      }
    }
  }

  lemma RequiredTables()
    ensures (set t | t in REQUIRED_TABLES)
            == {"users", "user_sessions", "node_groups", "nodes", "services", "service_nodes",
                "alerting_rules", "notifications"}
  {
  }

  datatype TableError = QueryFailed(table: string) | TableMissing(table: string)

  /** Asks for every required table in turn; `down(k)` says that the k-th query fails. */
  method CheckTablesExist(db: Db, down: nat -> bool) returns (err: Option<TableError>)
    ensures err.None? <==> forall k: nat | k < |REQUIRED_TABLES| :: !down(k) && REQUIRED_TABLES[k] in db.tables
    ensures err.Some? ==> exists k: nat ::
              && k < |REQUIRED_TABLES|
              && (forall j: nat | j < k :: !down(j) && REQUIRED_TABLES[j] in db.tables)
              && err.value == (if down(k) then QueryFailed(REQUIRED_TABLES[k]) else TableMissing(REQUIRED_TABLES[k]))
              && (down(k) || REQUIRED_TABLES[k] !in db.tables)
  {
    for i := 0 to |REQUIRED_TABLES|
      invariant forall k: nat | k < i :: !down(k) && REQUIRED_TABLES[k] in db.tables
    {
      if down(i) {
        return Some(QueryFailed(REQUIRED_TABLES[i]));
      }
      if REQUIRED_TABLES[i] !in db.tables {
        return Some(TableMissing(REQUIRED_TABLES[i]));
      }
    }
    err := None;
  }

  /** After a nil return the table check passes. */
  lemma MigratedTablesExist(db: Db)
    requires Prefixes(SyslensSchemas(), db, |SyslensSchemas()|, |SyslensSchemas()|)
    ensures forall t | t in REQUIRED_TABLES :: t in db.tables
  {
    var s := SyslensSchemas();
    assert s[0].table in db.tables && s[1].table in db.tables && s[2].table in db.tables && s[3].table in db.tables;
    assert s[4].table in db.tables && s[5].table in db.tables && s[6].table in db.tables && s[7].table in db.tables;
  }
}
