/** ClickHouse schema migrations: `Migrate` and `Rollback` over a table of signed rows.

    A row with sign 1 marks a migration as applied and a row with sign -1 cancels it; the
    table is only ever appended to and is read with collapsing. */
module Migrations {
  import opened Basics

  type Name = string

  /** Migration names are compared as byte strings. */
  predicate Less(a: Name, b: Name) {
    if b == "" then false
    else if a == "" then true
    else a[0] < b[0] || (a[0] == b[0] && Less(a[1..], b[1..]))
  }

  lemma {:induction false} LessTotal(a: Name, b: Name)
    ensures Less(a, b) || a == b || Less(b, a)
    ensures !(Less(a, b) && Less(b, a))
    ensures a == b ==> !Less(a, b)
  {
    if a != "" && b != "" {
      LessTotal(a[1..], b[1..]);
      assert a == [a[0]] + a[1..] && b == [b[0]] + b[1..];
    }
  }

  lemma {:induction false} LessTransitive(a: Name, b: Name, c: Name)
    requires Less(a, b) && Less(b, c)
    ensures Less(a, c)
  {
    if a != "" && a[0] == b[0] && b[0] == c[0] { LessTransitive(a[1..], b[1..], c[1..]); }
  }

  /** `migratedAt` is 0 for the zero time. */
  datatype Migration = Migration(name: Name, groupID: int, migratedAt: nat) {
    predicate IsApplied() {
      migratedAt != 0
    }
  }

  datatype Row = Row(migration: Migration, sign: int)

  predicate Ascending(ms: seq<Migration>) {
    forall i, j :: 0 <= i < j < |ms| ==> Less(ms[i].name, ms[j].name)
  }

  function Names(ms: seq<Migration>): set<Name> {
    set m | m in ms :: m.name
  }

  // ---------------------------------------------------------------------------
  // Reading the table
  // ---------------------------------------------------------------------------

  /** Sum of the signs of a name. */
  function Net(table: seq<Row>, name: Name): int {
    if table == [] then 0
    else
      var last := table[|table| - 1];
      Net(table[..|table| - 1], name) + if last.migration.name == name then last.sign else 0
  }

  /** The last row of a name with sign 1. */
  function LastState(table: seq<Row>, name: Name): (m: Migration)
    requires Net(table, name) > 0
    decreases |table|
  {
    var last := table[|table| - 1];
    if last.migration.name == name && last.sign > 0 then last.migration
    else NetPrefix(table, name); LastState(table[..|table| - 1], name)
  }

  lemma {:induction false} NetPrefix(table: seq<Row>, name: Name)
    requires Net(table, name) > 0
    requires var last := table[|table| - 1]; !(last.migration.name == name && last.sign > 0)
    ensures Net(table[..|table| - 1], name) > 0
  {
  }

  /** The names whose rows survive collapsing, with their state rows. */
  function Applied(table: seq<Row>): (m: map<Name, Migration>)
    ensures forall name :: name in m <==> Net(table, name) > 0
    ensures forall name :: name in m ==> m[name] == LastState(table, name)
  {
    forall name | Net(table, name) > 0 ensures name in RowNames(table) { NetOfUnknown(table, name); }
    map name | name in RowNames(table) && Net(table, name) > 0 :: LastState(table, name)
  }

  function RowNames(table: seq<Row>): set<Name> {
    set r | r in table :: r.migration.name
  }

  lemma {:induction false} NetOfUnknown(table: seq<Row>, name: Name)
    ensures name !in RowNames(table) ==> Net(table, name) == 0
  {
    if table != [] {
      var prefix := table[..|table| - 1];
      NetOfUnknown(prefix, name);
      assert forall r :: r in prefix ==> r in table;
    }
  }

  // ---------------------------------------------------------------------------
  // Migration slices
  // ---------------------------------------------------------------------------

  function Insert(m: Migration, ms: seq<Migration>): seq<Migration> {
    if ms == [] || Less(m.name, ms[0].name) then [m] + ms else [ms[0]] + Insert(m, ms[1..])
  }

  /** The library sort by name; names are distinct, so the result is unique. */
  function SortAsc(ms: seq<Migration>): seq<Migration> {
    if ms == [] then [] else Insert(ms[0], SortAsc(ms[1..]))
  }

  function Unapplied(ms: seq<Migration>): seq<Migration> {
    if ms == [] then []
    else
      var last := ms[|ms| - 1];
      Unapplied(ms[..|ms| - 1]) + if last.IsApplied() then [] else [last]
  }

  function InGroup(ms: seq<Migration>, id: int): seq<Migration> {
    if ms == [] then []
    else
      var last := ms[|ms| - 1];
      InGroup(ms[..|ms| - 1], id) + if last.groupID == id then [last] else []
  }

  /** The largest group id, 0 if there is none above 0. */
  function LastGroupID(ms: seq<Migration>): (id: int)
    ensures id >= 0
    ensures forall m :: m in ms ==> m.groupID <= id
    ensures id > 0 ==> exists m :: m in ms && m.groupID == id
  {
    if ms == [] then 0
    else
      var rest := LastGroupID(ms[..|ms| - 1]);
      var last := ms[|ms| - 1];
      assert ms == ms[..|ms| - 1] + [last];
      if last.groupID > rest then last.groupID else rest
  }

  datatype Group = Group(id: int, migrations: seq<Migration>)

  function LastGroup(ms: seq<Migration>): Group {
    var id := LastGroupID(ms);
    if id == 0 then Group(0, []) else Group(id, InGroup(ms, id))
  }

  /** Sorted registered migrations with what the table says about them. */
  function WithStatus(registered: seq<Name>, applied: map<Name, Migration>): seq<Migration> {
    SortAsc(Statuses(registered, applied))
  }

  function Statuses(registered: seq<Name>, applied: map<Name, Migration>): (ms: seq<Migration>)
    ensures |ms| == |registered|
    ensures forall k :: 0 <= k < |ms| ==> ms[k].name == registered[k] || registered[k] in applied
  {
    seq(|registered|, k requires 0 <= k < |registered| =>
      if registered[k] in applied then applied[registered[k]] else Migration(registered[k], 0, 0))
  }

  /** The largest group id among the applied migrations, 0 if there are none. */
  ghost function MaxGroup(applied: map<Name, Migration>): (id: int)
    ensures id >= 0
    ensures forall name :: name in applied ==> applied[name].groupID <= id
    ensures id > 0 ==> exists name :: name in applied && applied[name].groupID == id
    decreases |applied|
  {
    if applied == map[] then 0
    else
      var name :| name in applied;
      var rest := applied - {name};
      assert applied == rest[name := applied[name]] && |rest| < |applied|;
      var id := MaxGroup(rest);
      if applied[name].groupID > id then applied[name].groupID else id
  }

  // ---------------------------------------------------------------------------
  // Migrate and Rollback as functions of the table
  // ---------------------------------------------------------------------------

  /** What may go wrong while one migration is handled: its up or down function fails, or
      the insert that marks it fails, with or without the row having been stored. */
  datatype Fault = NoFault | FuncFails | MarkFails(stored: bool)

  function FaultAt(faults: seq<Fault>, i: nat): Fault {
    if i < |faults| then faults[i] else NoFault
  }

  datatype Outcome = Outcome(table: seq<Row>, failed: bool)

  /** One migration in the loops of Migrate and Rollback: in one mode it is marked before
      its function runs, in the other one only after the function has succeeded. */
  function Handle(table: seq<Row>, row: Row, markOnSuccess: bool, fault: Fault): Outcome {
    match fault
    case NoFault => Outcome(table + [row], false)
    case FuncFails => Outcome(if markOnSuccess then table else table + [row], true)
    case MarkFails(stored) => Outcome(if stored then table + [row] else table, true)
  }

  /** Handles the rows in order and stops at the first failure. */
  function HandleAll(table: seq<Row>, rows: seq<Row>, markOnSuccess: bool, faults: seq<Fault>): Outcome
    decreases |rows|
  {
    if rows == [] then Outcome(table, false)
    else
      var first := Handle(table, rows[0], markOnSuccess, FaultAt(faults, 0));
      if first.failed then first
      else HandleAll(first.table, rows[1..], markOnSuccess, if faults == [] then [] else faults[1..])
  }

  lemma HandleFirst(table: seq<Row>, rows: seq<Row>, row: Row, rest: seq<Row>, markOnSuccess: bool, faults: seq<Fault>)
      returns (first: Outcome)
    requires rows == [row] + rest
    ensures first == Handle(table, row, markOnSuccess, FaultAt(faults, 0))
    ensures first.table == table + [row] || (first.failed && first.table == table)
    ensures HandleAll(table, rows, markOnSuccess, faults)
         == if first.failed then first else HandleAll(first.table, rest, markOnSuccess, if faults == [] then [] else faults[1..])
  {
    first := Handle(table, row, markOnSuccess, FaultAt(faults, 0));
    assert rows[0] == row && rows[1..] == rest;
  }

  /** The faults from the `i`-th migration on. */
  function Later(faults: seq<Fault>, i: nat): seq<Fault> {
    if i <= |faults| then faults[i..] else []
  }

  /** Handling the rows from the `i`-th one on ends as handling all of them does. */
  ghost predicate LeadsTo(table: seq<Row>, rows: seq<Row>, i: nat, markOnSuccess: bool, faults: seq<Fault>, goal: Outcome)
    requires i <= |rows|
  {
    HandleAll(table, rows[i..], markOnSuccess, Later(faults, i)) == goal
  }

  lemma LeadsOn(table: seq<Row>, rows: seq<Row>, i: nat, markOnSuccess: bool, faults: seq<Fault>, goal: Outcome)
    requires i < |rows| && LeadsTo(table, rows, i, markOnSuccess, faults, goal)
    ensures var first := Handle(table, rows[i], markOnSuccess, FaultAt(faults, i));
      if first.failed then first == goal else LeadsTo(first.table, rows, i + 1, markOnSuccess, faults, goal)
  {
    assert rows[i..][0] == rows[i] && rows[i..][1..] == rows[i + 1..];
    assert FaultAt(Later(faults, i), 0) == FaultAt(faults, i);
    assert (if Later(faults, i) == [] then [] else Later(faults, i)[1..]) == Later(faults, i + 1);
  }

  lemma {:induction false} LeadsAll(table: seq<Row>, rows: seq<Row>, markOnSuccess: bool, faults: seq<Fault>)
    ensures LeadsTo(table, rows, 0, markOnSuccess, faults, HandleAll(table, rows, markOnSuccess, faults))
  {
    assert rows[0..] == rows && Later(faults, 0) == faults;
  }

  /** The first of `n` migrations at which something fails, or `n`. */
  function FirstFault(faults: seq<Fault>, n: nat): (f: nat)
    ensures f <= n && (forall i :: 0 <= i < f ==> FaultAt(faults, i) == NoFault)
    ensures f < n ==> FaultAt(faults, f) != NoFault
  {
    if n == 0 || FaultAt(faults, 0) != NoFault then 0
    else
      var f := FirstFault(if faults == [] then [] else faults[1..], n - 1);
      assert forall i :: 0 < i < n ==> FaultAt(faults, i) == FaultAt(if faults == [] then [] else faults[1..], i - 1);
      1 + f
  }

  /** It is the first place of the list that is no `NoFault`, if there is one among the first `n`. */
  lemma {:induction false} FirstFaultIff(faults: seq<Fault>, n: nat, f: nat)
    ensures FirstFault(faults, n) == f
       <==> f <= n && (forall i :: 0 <= i < f && i < |faults| ==> faults[i] == NoFault)
            && (f < n ==> f < |faults| && faults[f] != NoFault)
  {
    var first := FirstFault(faults, n);
    assert forall i :: 0 <= i < first && i < |faults| ==> faults[i] == FaultAt(faults, i);
    if f < first { assert FaultAt(faults, f) == NoFault; }
  }

  /** How many migrations are known to be marked: those before the first failure, and the one that fails
      if it was marked before its function failed. */
  function KnownMarked(faults: seq<Fault>, n: nat, markOnSuccess: bool): nat {
    var f := FirstFault(faults, n);
    if f < n && FaultAt(faults, f) == FuncFails && !markOnSuccess then f + 1 else f
  }

  /** Exactly those before the first failure are marked, and the one that fails if its row was stored
      all the same, or if it was marked before its function failed. */
  lemma {:induction false} HandledExactly(table: seq<Row>, rows: seq<Row>, markOnSuccess: bool, faults: seq<Fault>)
    ensures var f := FirstFault(faults, |rows|);
      var last := f < |rows| && (FaultAt(faults, f) == MarkFails(true) || (FaultAt(faults, f) == FuncFails && !markOnSuccess));
      HandleAll(table, rows, markOnSuccess, faults) == Outcome(table + rows[..if last then f + 1 else f], f < |rows|)
    decreases |rows|
  {
    NoneOf(table, rows);
    if rows != [] {
      var first := HandleFirst(table, rows, rows[0], rows[1..], markOnSuccess, faults);
      FirstOf(rows);
      if !first.failed {
        var later := if faults == [] then [] else faults[1..];
        HandledExactly(first.table, rows[1..], markOnSuccess, later);
        var f := FirstFault(later, |rows| - 1);
        ConcatPrefix(table, rows, f);
        if f < |rows| - 1 { ConcatPrefix(table, rows, f + 1); }
      }
    }
  }

  lemma NoneOf<T>(a: seq<T>, b: seq<T>)
    ensures a + b[..0] == a
  {
  }

  lemma FirstOf<T>(a: seq<T>)
    requires a != []
    ensures a[..1] == [a[0]]
  {
  }

  lemma ConcatPrefix<T>(a: seq<T>, b: seq<T>, k: nat)
    requires k < |b|
    ensures (a + [b[0]]) + b[1..][..k] == a + b[..k + 1]
  {
    assert b[..k + 1] == [b[0]] + b[1..][..k];
  }

  /** The rows that mark the unapplied migrations, in ascending order. */
  function MarkRows(ms: seq<Migration>, groupID: int, now: nat): (rows: seq<Row>)
    ensures |rows| == |ms|
  {
    seq(|ms|, k requires 0 <= k < |ms| => Row(Migration(ms[k].name, groupID, now), 1))
  }

  /** The rows that cancel a group, last migration first. */
  function CancelRows(ms: seq<Migration>): (rows: seq<Row>)
    ensures |rows| == |ms|
  {
    seq(|ms|, k requires 0 <= k < |ms| => Row(ms[|ms| - 1 - k], -1))
  }

  ghost function MigrateSpec(table: seq<Row>, registered: seq<Name>, now: nat, markOnSuccess: bool, faults: seq<Fault>): Outcome {
    if registered == [] then Outcome(table, true)
    else
      var applied := Applied(table);
      var todo := SortAsc(Unapplied(WithStatus(registered, applied)));
      HandleAll(table, MarkRows(todo, MaxGroup(applied) + 1, now), markOnSuccess, faults)
  }

  ghost function RollbackSpec(table: seq<Row>, registered: seq<Name>, markOnSuccess: bool, faults: seq<Fault>): Outcome {
    if registered == [] then Outcome(table, true)
    else
      var group := LastGroup(WithStatus(registered, Applied(table)));
      HandleAll(table, CancelRows(group.migrations), markOnSuccess, faults)
  }

  // ---------------------------------------------------------------------------
  // The code
  // ---------------------------------------------------------------------------

  lemma TakeOneMore<T>(a: seq<T>, i: nat)
    requires i < |a|
    ensures a[..i + 1] == a[..i] + [a[i]]
  {
  }

  method UnappliedOf(ms: seq<Migration>) returns (r: seq<Migration>)
    ensures r == SortAsc(Unapplied(ms))
  {
    r := [];
    for i := 0 to |ms|
      invariant r == Unapplied(ms[..i])
    {
      assert ms[..i + 1][..i] == ms[..i];
      if !ms[i].IsApplied() { r := r + [ms[i]]; }
    }
    assert ms[..|ms|] == ms;
    r := SortAsc(r);
  }

  method LastGroupIDOf(ms: seq<Migration>) returns (id: int)
    ensures id == LastGroupID(ms)
  {
    id := 0;
    for i := 0 to |ms|
      invariant id == LastGroupID(ms[..i])
    {
      assert ms[..i + 1][..i] == ms[..i];
      if ms[i].groupID > id { id := ms[i].groupID; }
    }
    assert ms[..|ms|] == ms;
  }

  lemma {:induction false} InGroupStep(ms: seq<Migration>, i: nat, id: int)
    requires i < |ms|
    ensures InGroup(ms[..i + 1], id) == InGroup(ms[..i], id) + if ms[i].groupID == id then [ms[i]] else []
  {
    assert ms[..i + 1][..i] == ms[..i];
  }

  method LastGroupOf(ms: seq<Migration>) returns (group: Group)
    ensures group == LastGroup(ms)
  {
    var id := LastGroupIDOf(ms);
    if id == 0 { return Group(0, []); }
    var found := [];
    for i := 0 to |ms|
      invariant found == InGroup(ms[..i], id)
    {
      InGroupStep(ms, i, id);
      if ms[i].groupID == id { found := found + [ms[i]]; }
    }
    assert ms[..|ms|] == ms;
    group := Group(id, found);
  }

  /** The first of these migrations, with the new group id and time; all of them unless it failed. */
  predicate GroupMade(made: seq<Migration>, failed: bool, ms: seq<Migration>, groupID: int, now: nat) {
    && |made| <= |ms| && (!failed ==> |made| == |ms|)
    && forall k :: 0 <= k < |made| ==> made[k] == Migration(ms[k].name, groupID, now)
  }

  /** The last of these migrations, last one first. */
  predicate GroupUndone(undone: seq<Migration>, ms: seq<Migration>) {
    |undone| <= |ms| && forall k :: 0 <= k < |undone| ==> undone[k] == ms[|ms| - 1 - k]
  }

  class Migrator {
    var table: seq<Row>            // the migrations table of the database
    var registered: seq<Name>
    const markAppliedOnSuccess: bool

    constructor (registered: seq<Name>, markAppliedOnSuccess: bool)
      ensures table == [] && this.registered == registered && this.markAppliedOnSuccess == markAppliedOnSuccess
    {
      table, this.registered, this.markAppliedOnSuccess := [], registered, markAppliedOnSuccess;
    }

    /** A collapsing read: the surviving rows in an order chosen by the database. */
    method AppliedMigrations() returns (ms: seq<Migration>)
      ensures forall m :: m in ms <==> m in Applied(table).Values
      ensures LastGroupID(ms) == MaxGroup(Applied(table))
    {
      var applied := Applied(table);
      var left := applied.Keys;
      ms := [];
      while left != {}
        invariant left <= applied.Keys
        invariant forall m :: m in ms <==> exists name :: name in applied && name !in left && applied[name] == m
        decreases |left|
      {
        var name :| name in left;
        ms, left := ms + [applied[name]], left - {name};
      }
    }

    method MigrationsWithStatus() returns (sorted: seq<Migration>, lastGroupID: int)
      ensures sorted == WithStatus(registered, Applied(table))
      ensures lastGroupID == MaxGroup(Applied(table))
    {
      var rows := AppliedMigrations();
      lastGroupID := LastGroupIDOf(rows);
      // The map from names to rows does not depend on the order of the rows.
      var applied := Applied(table);
      ghost var all := Statuses(registered, applied);
      var ms := [];
      for i := 0 to |registered|
        invariant ms == all[..i]
      {
        var name := registered[i];
        ms := ms + [if name in applied then applied[name] else Migration(name, 0, 0)];
        TakeOneMore(all, i);
      }
      assert all[..|registered|] == all;
      sorted := SortAsc(ms);
    }

    /** Inserts a row; a failing insert may or may not have stored it. */
    method Mark(row: Row, fault: Fault) returns (failed: bool)
      modifies this`table
      ensures failed == fault.MarkFails?
      ensures table == if fault.MarkFails? && !fault.stored then old(table) else old(table) + [row]
    {
      if !(fault.MarkFails? && !fault.stored) { table := table + [row]; }
      failed := fault.MarkFails?;
    }

    /** One round of the loops of Migrate and Rollback: mark first or mark last. */
    method HandleOne(row: Row, fault: Fault) returns (marked: bool, failed: bool)
      modifies this`table
      ensures Outcome(table, failed) == Handle(old(table), row, markAppliedOnSuccess, fault)
      ensures marked <==> fault.NoFault? || (fault.FuncFails? && !markAppliedOnSuccess)
    {
      marked := false;
      if !markAppliedOnSuccess {
        failed := Mark(row, fault);
        if failed { return; }
        marked := true;
      }
      if fault.FuncFails? { return marked, true; }
      if markAppliedOnSuccess {
        failed := Mark(row, fault);
        if failed { return; }
        marked := true;
      }
      failed := false;
    }

    /** The loop of Migrate, which stops at the first failure. */
    method MarkAll(migrations: seq<Migration>, groupID: int, now: nat, faults: seq<Fault>)
      returns (made: seq<Migration>, failed: bool)
      modifies this`table
      ensures Outcome(table, failed) == HandleAll(old(table), MarkRows(migrations, groupID, now), markAppliedOnSuccess, faults)
      ensures GroupMade(made, failed, migrations, groupID, now)
      ensures |made| == KnownMarked(faults, |migrations|, markAppliedOnSuccess)
    {
      made := [];
      ghost var rows := MarkRows(migrations, groupID, now);
      ghost var goal := HandleAll(table, rows, markAppliedOnSuccess, faults);
      LeadsAll(table, rows, markAppliedOnSuccess, faults);
      ghost var fault := FirstFault(faults, |migrations|);
      for i := 0 to |migrations|
        invariant i <= fault
        invariant |made| == i && GroupMade(made, true, migrations, groupID, now)
        invariant LeadsTo(table, rows, i, markAppliedOnSuccess, faults, goal)
      {
        var migration := migrations[i].(groupID := groupID, migratedAt := now);
        LeadsOn(table, rows, i, markAppliedOnSuccess, faults, goal);
        assert rows[i] == Row(migration, 1);
        var marked;
        marked, failed := HandleOne(Row(migration, 1), FaultAt(faults, i));
        if marked { made := made + [migration]; }
        if failed { return; }
      }
      failed := false;
    }

    method Migrate(now: nat, faults: seq<Fault>) returns (group: Group, failed: bool)
      modifies this`table
      ensures Outcome(table, failed) == MigrateSpec(old(table), registered, now, markAppliedOnSuccess, faults)
      ensures registered == [] ==> failed && table == old(table)
      ensures !failed ==> group.id == if group.migrations == [] then 0 else MaxGroup(Applied(old(table))) + 1
      ensures registered != [] ==>
        GroupMade(group.migrations, failed, SortAsc(Unapplied(WithStatus(registered, Applied(old(table))))),
                  MaxGroup(Applied(old(table))) + 1, now)
    {
      if registered == [] { return Group(0, []), true; }
      ghost var goal := MigrateSpec(table, registered, now, markAppliedOnSuccess, faults);
      var migrations, lastGroupID := MigrationsWithStatus();
      migrations := UnappliedOf(migrations);
      assert goal == HandleAll(table, MarkRows(migrations, lastGroupID + 1, now), markAppliedOnSuccess, faults);
      if migrations == [] { return Group(0, []), false; }
      var made;
      made, failed := MarkAll(migrations, lastGroupID + 1, now, faults);
      group := Group(lastGroupID + 1, made);
    }

    /** The loop of Rollback: last migration first, up to the first failure. */
    method CancelAll(migrations: seq<Migration>, faults: seq<Fault>) returns (undone: seq<Migration>, failed: bool)
      modifies this`table
      ensures Outcome(table, failed) == HandleAll(old(table), CancelRows(migrations), markAppliedOnSuccess, faults)
      ensures GroupUndone(undone, migrations)
      ensures |undone| == KnownMarked(faults, |migrations|, markAppliedOnSuccess)
    {
      undone := [];
      ghost var rows := CancelRows(migrations);
      ghost var goal := HandleAll(table, rows, markAppliedOnSuccess, faults);
      LeadsAll(table, rows, markAppliedOnSuccess, faults);
      ghost var fault := FirstFault(faults, |migrations|);
      var i, done := |migrations|, 0;
      while i > 0
        invariant done <= fault
        invariant 0 <= i <= |migrations| && done == |migrations| - i == |undone|
        invariant GroupUndone(undone, migrations)
        invariant LeadsTo(table, rows, done, markAppliedOnSuccess, faults, goal)
      {
        i := i - 1;
        var migration := migrations[i];
        LeadsOn(table, rows, done, markAppliedOnSuccess, faults, goal);
        assert rows[done] == Row(migration, -1);
        var marked;
        marked, failed := HandleOne(Row(migration, -1), FaultAt(faults, done));
        if marked { undone := undone + [migration]; }
        if failed { return; }
        done := done + 1;
      }
      failed := false;
    }

    /** Returns the whole group on success and what was undone before a failure. */
    method Rollback(faults: seq<Fault>) returns (group: Group, failed: bool)
      modifies this`table
      ensures Outcome(table, failed) == RollbackSpec(old(table), registered, markAppliedOnSuccess, faults)
      ensures registered == [] ==> failed && table == old(table)
      ensures !failed ==> group == LastGroup(WithStatus(registered, Applied(old(table))))
      ensures failed && registered != [] ==>
        GroupUndone(group.migrations, LastGroup(WithStatus(registered, Applied(old(table)))).migrations)
    {
      if registered == [] { return Group(0, []), true; }
      var migrations, _ := MigrationsWithStatus();
      var lastGroup := LastGroupOf(migrations);
      var undone;
      undone, failed := CancelAll(lastGroup.migrations, faults);
      group := if failed then Group(lastGroup.id, undone) else lastGroup;
    }
  }

  // ---------------------------------------------------------------------------
  // The table as a stack
  // ---------------------------------------------------------------------------

  /** The order in which migrations are applied. */
  predicate Before(a: Migration, b: Migration) {
    a.groupID < b.groupID || (a.groupID == b.groupID && Less(a.name, b.name))
  }

  /** Reads the table from its first row: a row with sign 1 must push a migration that is
      not on the stack and comes after its top, a row with sign -1 must pop the top. None
      if some row does not fit. */
  function Replay(table: seq<Row>): Option<seq<Migration>> {
    if table == [] then Some([])
    else
      match Replay(table[..|table| - 1])
      case None => None
      case Some(stack) =>
        var row := table[|table| - 1];
        var top := |stack| - 1;
        if row.sign == 1 then
          if row.migration.name !in Names(stack) && (stack == [] || Before(stack[top], row.migration))
          then Some(stack + [row.migration]) else None
        else if row.sign == -1 && stack != [] && stack[top] == row.migration then Some(stack[..top])
        else None
  }

  predicate Stacked(stack: seq<Migration>) {
    && (forall i, j :: 0 <= i < j < |stack| ==> Before(stack[i], stack[j]))
    && (forall i, j :: 0 <= i < j < |stack| ==> stack[i].name != stack[j].name)
  }

  lemma BeforeTransitive(a: Migration, b: Migration, c: Migration)
    requires Before(a, b) && Before(b, c)
    ensures Before(a, c)
  {
    if a.groupID == b.groupID == c.groupID { LessTransitive(a.name, b.name, c.name); }
  }

  lemma StackedPush(stack: seq<Migration>, m: Migration)
    requires Stacked(stack) && m.name !in Names(stack) && (stack == [] || Before(stack[|stack| - 1], m))
    ensures Stacked(stack + [m])
  {
    forall i | 0 <= i < |stack| ensures Before(stack[i], m) && stack[i].name != m.name {
      assert stack[i].name in Names(stack);
      if i < |stack| - 1 { BeforeTransitive(stack[i], stack[|stack| - 1], m); }
    }
  }

  ghost predicate NamesAre(table: seq<Row>, stack: seq<Migration>) {
    && (forall name :: Net(table, name) == if name in Names(stack) then 1 else 0)
    && (forall m :: m in stack ==> Net(table, m.name) == 1 && LastState(table, m.name) == m)
  }

  /** What the last row of a replayable table does to the stack. */
  lemma {:induction false} LastRow(prefix: seq<Row>, row: Row)
    requires Replay(prefix + [row]).Some?
    ensures Replay(prefix).Some?
    ensures var stack, after := Replay(prefix).value, Replay(prefix + [row]).value;
      if row.sign == 1 then
        && row.migration.name !in Names(stack) && (stack == [] || Before(stack[|stack| - 1], row.migration))
        && after == stack + [row.migration]
      else
        && row.sign == -1 && stack != [] && stack[|stack| - 1] == row.migration && after == stack[..|stack| - 1]
  {
    var table := prefix + [row];
    assert table[..|table| - 1] == prefix;
  }

  /** A replayable table has net sign 0 or 1 for every name, and a collapsing read of it
      returns exactly the stack. */
  lemma {:induction false} ReplayReads(table: seq<Row>)
    requires Replay(table).Some?
    ensures Stacked(Replay(table).value) && NamesAre(table, Replay(table).value)
  {
    if table != [] {
      var prefix, row := table[..|table| - 1], table[|table| - 1];
      assert table == prefix + [row];
      LastRow(prefix, row);
      ReplayReads(prefix);
      var stack := Replay(prefix).value;
      if row.sign == 1 {
        StackedPush(stack, row.migration);
        PushReads(prefix, row, stack);
      } else {
        PopReads(prefix, row, stack);
      }
    }
  }

  lemma PushReads(prefix: seq<Row>, row: Row, stack: seq<Migration>)
    requires Stacked(stack) && NamesAre(prefix, stack) && row.sign == 1 && row.migration.name !in Names(stack)
    ensures NamesAre(prefix + [row], stack + [row.migration])
  {
    var table := prefix + [row];
    assert table[..|table| - 1] == prefix;
    assert Names(stack + [row.migration]) == Names(stack) + {row.migration.name};
    forall m | m in stack ensures m.name in Names(stack) && m.name != row.migration.name && LastState(table, m.name) == m {
      assert m.name in Names(stack);
    }
  }

  lemma PopReads(prefix: seq<Row>, row: Row, stack: seq<Migration>)
    requires Stacked(stack) && NamesAre(prefix, stack) && row.sign == -1
    requires stack != [] && stack[|stack| - 1] == row.migration
    ensures NamesAre(prefix + [row], stack[..|stack| - 1])
  {
    var table, rest := prefix + [row], stack[..|stack| - 1];
    assert table[..|table| - 1] == prefix;
    assert stack == rest + [row.migration];
    assert Names(stack) == Names(rest) + {row.migration.name};
    assert row.migration.name !in Names(rest);
    forall m | m in rest ensures m in stack && m.name != row.migration.name && LastState(table, m.name) == m {
      assert m.name in Names(rest);
    }
  }

  lemma {:induction false} AppliedIsStack(table: seq<Row>, stack: seq<Migration>)
    requires Replay(table) == Some(stack)
    ensures Stacked(stack)
    ensures Applied(table).Keys == Names(stack)
    ensures forall m :: m in Applied(table).Values <==> m in stack
    ensures forall m :: m in stack ==> m.name in Applied(table) && Applied(table)[m.name] == m
  {
    ReplayReads(table);
    var applied := Applied(table);
    forall name | name in applied ensures applied[name] in stack {
      var m :| m in stack && m.name == name;
    }
    forall m | m in stack ensures m in applied.Values { assert m.name in applied && applied[m.name] == m; }
  }

  // ---------------------------------------------------------------------------
  // Sorting and selecting migrations
  // ---------------------------------------------------------------------------

  predicate DistinctNames(ms: seq<Migration>) {
    forall i, j :: 0 <= i < j < |ms| ==> ms[i].name != ms[j].name
  }

  lemma {:induction false} InsertHolds(m: Migration, ms: seq<Migration>)
    ensures forall x :: x in Insert(m, ms) <==> x == m || x in ms
    ensures |Insert(m, ms)| == |ms| + 1
  {
    if !(ms == [] || Less(m.name, ms[0].name)) {
      InsertHolds(m, ms[1..]);
      assert ms == [ms[0]] + ms[1..];
    }
  }

  lemma {:induction false} InsertSorts(m: Migration, ms: seq<Migration>)
    requires Ascending(ms) && m.name !in Names(ms)
    ensures Ascending(Insert(m, ms))
    ensures forall x :: x in Insert(m, ms) <==> x == m || x in ms
    ensures |Insert(m, ms)| == |ms| + 1
  {
    InsertHolds(m, ms);
    if ms == [] || Less(m.name, ms[0].name) {
      forall k | 0 <= k < |ms| ensures Less(m.name, ms[k].name) {
        if k > 0 { LessTransitive(m.name, ms[0].name, ms[k].name); }
      }
    } else {
      assert ms[0].name in Names(ms);
      LessTotal(m.name, ms[0].name);
      assert forall x :: x in ms[1..] ==> x in ms;
      InsertSorts(m, ms[1..]);
      var r := Insert(m, ms[1..]);
      forall k | 0 <= k < |r| ensures Less(ms[0].name, r[k].name) {
        assert r[k] in r;
        if r[k] != m { LaterIsGreater(ms, r[k]); }
      }
    }
  }

  lemma LaterIsGreater(ms: seq<Migration>, x: Migration)
    requires Ascending(ms) && ms != [] && x in ms[1..]
    ensures Less(ms[0].name, x.name)
  {
    var j :| 0 <= j < |ms[1..]| && ms[1..][j] == x;
    assert x == ms[j + 1];
  }

  lemma {:induction false} SortSorts(ms: seq<Migration>)
    requires DistinctNames(ms)
    ensures Ascending(SortAsc(ms))
    ensures forall x :: x in SortAsc(ms) <==> x in ms
  {
    if ms != [] {
      assert DistinctNames(ms[1..]);
      SortSorts(ms[1..]);
      forall x | x in ms[1..] ensures x.name != ms[0].name {
        var j :| 0 <= j < |ms[1..]| && ms[1..][j] == x;
        assert ms[j + 1] == x;
      }
      InsertSorts(ms[0], SortAsc(ms[1..]));
      assert ms == [ms[0]] + ms[1..];
    }
  }

  /** Sorting what is already sorted changes nothing. */
  lemma {:induction false} SortIdle(ms: seq<Migration>)
    requires Ascending(ms)
    ensures SortAsc(ms) == ms
  {
    if ms != [] {
      SortIdle(ms[1..]);
      assert ms == [ms[0]] + ms[1..];
    }
  }

  lemma {:induction false} UnappliedSelects(ms: seq<Migration>)
    requires Ascending(ms)
    ensures Ascending(Unapplied(ms))
    ensures forall x :: x in Unapplied(ms) <==> x in ms && !x.IsApplied()
  {
    if ms != [] {
      var prefix, last := ms[..|ms| - 1], ms[|ms| - 1];
      assert ms == prefix + [last];
      UnappliedSelects(prefix);
      forall k | 0 <= k < |Unapplied(prefix)| ensures Less(Unapplied(prefix)[k].name, last.name) {
        assert Unapplied(prefix)[k] in prefix;
      }
    }
  }

  lemma {:induction false} InGroupSelects(ms: seq<Migration>, id: int)
    requires Ascending(ms)
    ensures Ascending(InGroup(ms, id))
    ensures forall x :: x in InGroup(ms, id) <==> x in ms && x.groupID == id
  {
    if ms != [] {
      var prefix, last := ms[..|ms| - 1], ms[|ms| - 1];
      assert ms == prefix + [last];
      InGroupSelects(prefix, id);
      forall k | 0 <= k < |InGroup(prefix, id)| ensures Less(InGroup(prefix, id)[k].name, last.name) {
        assert InGroup(prefix, id)[k] in prefix;
      }
    }
  }

  lemma FirstIn(a: seq<Migration>)
    ensures a != [] ==> a[0] in a
  {
  }

  /** An ascending sequence is determined by its elements. */
  lemma {:induction false} AscendingUnique(a: seq<Migration>, b: seq<Migration>)
    requires Ascending(a) && Ascending(b)
    requires forall x :: x in a <==> x in b
    ensures a == b
  {
    if a == [] {
      FirstIn(b);
    } else {
      assert a[0] in a && b != [];
      assert b[0] in b;
      var i :| 0 <= i < |b| && b[i] == a[0];
      var j :| 0 <= j < |a| && a[j] == b[0];
      LessTotal(a[0].name, b[0].name);
      assert i == 0 && j == 0;
      forall x ensures x in a[1..] <==> x in b[1..] {
        AscendingTail(a, x);
        AscendingTail(b, x);
      }
      AscendingUnique(a[1..], b[1..]);
      assert a == [a[0]] + a[1..] && b == [b[0]] + b[1..];
    }
  }

  lemma AscendingTail(a: seq<Migration>, x: Migration)
    requires Ascending(a) && a != []
    ensures x in a[1..] <==> x in a && x != a[0]
  {
    LessTotal(a[0].name, a[0].name);
    if x in a[1..] {
      var k :| 0 <= k < |a[1..]| && a[1..][k] == x;
      assert a[k + 1] == x && Less(a[0].name, x.name);
    }
  }

  // ---------------------------------------------------------------------------
  // Runs
  // ---------------------------------------------------------------------------

  datatype State = State(registered: seq<Name>, table: seq<Row>)

  /** The clock is never the zero time. */
  type Clock = now: nat | now > 0 witness 1

  datatype Op =
    | Register(name: Name)
    | DoMigrate(now: Clock, markOnSuccess: bool, faults: seq<Fault>)
    | DoRollback(markOnSuccess: bool, faults: seq<Fault>)

  /** A name is registered at most once. */
  ghost function Step(s: State, op: Op): State {
    match op
    case Register(name) => if name in s.registered then s else s.(registered := s.registered + [name])
    case DoMigrate(now, mode, faults) => s.(table := MigrateSpec(s.table, s.registered, now, mode, faults).table)
    case DoRollback(mode, faults) => s.(table := RollbackSpec(s.table, s.registered, mode, faults).table)
  }

  ghost function Run(ops: seq<Op>): State {
    if ops == [] then State([], []) else Step(Run(ops[..|ops| - 1]), ops[|ops| - 1])
  }

  predicate DistinctSeq(names: seq<Name>) {
    forall i, j :: 0 <= i < j < |names| ==> names[i] != names[j]
  }

  ghost predicate Good(s: State) {
    && DistinctSeq(s.registered)
    && Replay(s.table).Some?
    && forall m :: m in Replay(s.table).value ==> m.name in s.registered && m.IsApplied() && m.groupID >= 1
  }

  predicate Pushable(stack: seq<Migration>, ms: seq<Migration>) {
    && Ascending(ms)
    && (forall m :: m in ms ==> m.name !in Names(stack))
    && (forall i :: 0 <= i < |ms| ==> ms[i].groupID == ms[0].groupID)
    && (stack != [] && ms != [] ==> Before(stack[|stack| - 1], ms[0]))
  }

  function PushRows(ms: seq<Migration>): (rows: seq<Row>)
    ensures |rows| == |ms|
  {
    seq(|ms|, i requires 0 <= i < |ms| => Row(ms[i], 1))
  }

  lemma PushableRest(stack: seq<Migration>, ms: seq<Migration>)
    requires ms != [] && Pushable(stack, ms)
    ensures ms[0].name !in Names(stack)
    ensures Pushable(stack + [ms[0]], ms[1..])
  {
    var rest := ms[1..];
    assert ms[0] in ms;
    forall m | m in rest ensures m.name !in Names(stack + [ms[0]]) {
      AscendingTail(ms, m);
      var j :| 0 <= j < |rest| && rest[j] == m;
      assert ms[j + 1] == m && Less(ms[0].name, m.name);
      LessTotal(m.name, ms[0].name);
      assert m.name !in Names(stack);
    }
  }

  lemma {:induction false} ReplayPush(table: seq<Row>, stack: seq<Migration>, m: Migration)
    requires Replay(table) == Some(stack)
    requires m.name !in Names(stack) && (stack == [] || Before(stack[|stack| - 1], m))
    ensures Replay(table + [Row(m, 1)]) == Some(stack + [m])
  {
    var table' := table + [Row(m, 1)];
    assert table'[..|table'| - 1] == table;
  }

  lemma {:induction false} ReplayPop(table: seq<Row>, stack: seq<Migration>, m: Migration)
    requires Replay(table) == Some(stack + [m])
    ensures Replay(table + [Row(m, -1)]) == Some(stack)
  {
    var table' := table + [Row(m, -1)];
    assert table'[..|table'| - 1] == table;
    assert (stack + [m])[..|stack|] == stack;
  }

  lemma {:induction false} PushOne(table: seq<Row>, stack: seq<Migration>, ms: seq<Migration>)
    requires Replay(table) == Some(stack) && ms != [] && Pushable(stack, ms)
    ensures Replay(table + [Row(ms[0], 1)]) == Some(stack + [ms[0]]) && Pushable(stack + [ms[0]], ms[1..])
  {
    PushableRest(stack, ms);
    ReplayPush(table, stack, ms[0]);
  }

  lemma PrefixOfPrefix<T>(a: seq<T>, i: nat, k: nat)
    requires k <= i <= |a|
    ensures a[..i][..k] == a[..k]
  {
  }

  lemma PushRowsStep(ms: seq<Migration>)
    requires ms != []
    ensures PushRows(ms) == [Row(ms[0], 1)] + PushRows(ms[1..])
  {
  }

  lemma CancelRowsStep(ms: seq<Migration>)
    requires ms != []
    ensures var last := |ms| - 1; CancelRows(ms) == [Row(ms[last], -1)] + CancelRows(ms[..last])
  {
  }

  /** Marking migrations in order pushes them, up to the first failure. */
  lemma {:induction false} PushAll(table: seq<Row>, stack: seq<Migration>, ms: seq<Migration>, mode: bool, faults: seq<Fault>, r: Outcome)
      returns (k: nat)
    requires Replay(table) == Some(stack) && Pushable(stack, ms)
    requires r == HandleAll(table, PushRows(ms), mode, faults)
    ensures k <= |ms| && Replay(r.table) == Some(stack + ms[..k]) && (!r.failed ==> k == |ms|)
    decreases |ms|
  {
    k := 0;
    NoneOf(stack, ms);
    if ms != [] {
      var row, rest := Row(ms[0], 1), ms[1..];
      PushOne(table, stack, ms);
      PushRowsStep(ms);
      var first := HandleFirst(table, PushRows(ms), row, PushRows(rest), mode, faults);
      if !first.failed {
        var more := PushAll(table + [row], stack + [ms[0]], rest, mode, if faults == [] then [] else faults[1..], r);
        ConcatPrefix(stack, ms, more);
        k := more + 1;
      } else if first.table != table {
        k := 1;
        FirstOf(ms);
      }
    }
  }

  /** Cancelling the top part of the stack, last migration first, pops it. */
  lemma {:induction false} PopAll(table: seq<Row>, base: seq<Migration>, ms: seq<Migration>, mode: bool, faults: seq<Fault>, r: Outcome)
      returns (k: nat)
    requires Replay(table) == Some(base + ms)
    requires r == HandleAll(table, CancelRows(ms), mode, faults)
    ensures k <= |ms| && Replay(r.table) == Some(base + ms[..k]) && (!r.failed ==> k == 0)
    decreases |ms|
  {
    k := |ms|;
    assert ms[..k] == ms;
    if ms != [] {
      var last := |ms| - 1;
      var rest, row := ms[..last], Row(ms[last], -1);
      assert Replay(table + [row]) == Some(base + rest) by {
        assert base + ms == (base + rest) + [ms[last]];
        ReplayPop(table, base + rest, ms[last]);
      }
      CancelRowsStep(ms);
      var first := HandleFirst(table, CancelRows(ms), row, CancelRows(rest), mode, faults);
      if !first.failed {
        k := PopAll(table + [row], base, rest, mode, if faults == [] then [] else faults[1..], r);
        PrefixOfPrefix(ms, last, k);
      } else if first.table != table {
        k := last;
      }
    }
  }

  /** A registered migration as MigrationsWithStatus reports it. */
  ghost predicate IsStatus(registered: seq<Name>, stack: seq<Migration>, m: Migration) {
    m in stack || (m.name in registered && m.name !in Names(stack) && m == Migration(m.name, 0, 0))
  }

  /** What MigrationsWithStatus returns in a good state. */
  lemma StatusFacts(s: State, stack: seq<Migration>)
    requires Good(s) && Replay(s.table) == Some(stack)
    ensures Ascending(WithStatus(s.registered, Applied(s.table)))
    ensures forall m :: m in WithStatus(s.registered, Applied(s.table)) <==> IsStatus(s.registered, stack, m)
  {
    AppliedIsStack(s.table, stack);
    var applied := Applied(s.table);
    var ms := Statuses(s.registered, applied);
    forall k | 0 <= k < |ms| ensures ms[k].name == s.registered[k] && IsStatus(s.registered, stack, ms[k]) {
      if s.registered[k] in applied { assert applied[s.registered[k]] in applied.Values; }
    }
    assert DistinctNames(ms);
    SortSorts(ms);
    forall m | IsStatus(s.registered, stack, m) ensures m in ms {
      var k :| 0 <= k < |s.registered| && s.registered[k] == m.name;
      assert m in stack ==> applied[m.name] == m;
      assert ms[k] == m;
    }
  }

  function Marked(ms: seq<Migration>, groupID: int, now: nat): (r: seq<Migration>)
    ensures |r| == |ms|
    ensures forall m :: m in r ==> m.name in Names(ms) && m.groupID == groupID && m.migratedAt == now
    ensures forall name :: name in Names(r) <==> name in Names(ms)
  {
    var r := seq(|ms|, k requires 0 <= k < |ms| => Migration(ms[k].name, groupID, now));
    assert forall k :: 0 <= k < |ms| ==> r[k] in r && ms[k] in ms && r[k].name == ms[k].name;
    r
  }

  ghost predicate GoodStack(registered: seq<Name>, stack: seq<Migration>) {
    forall m :: m in stack ==> m.name in registered && m.IsApplied() && m.groupID >= 1
  }

  /** The unapplied migrations, in the order in which Migrate marks them. */
  lemma TodoFacts(s: State, stack: seq<Migration>) returns (todo: seq<Migration>)
    requires Good(s) && Replay(s.table) == Some(stack)
    ensures todo == SortAsc(Unapplied(WithStatus(s.registered, Applied(s.table)))) && Ascending(todo)
    ensures forall name :: name in Names(todo) <==> name in s.registered && name !in Names(stack)
  {
    var ws := WithStatus(s.registered, Applied(s.table));
    StatusFacts(s, stack);
    UnappliedSelects(ws);
    SortIdle(Unapplied(ws));
    todo := Unapplied(ws);
    forall name | name in s.registered && name !in Names(stack) ensures name in Names(todo) {
      var m := Migration(name, 0, 0);
      assert IsStatus(s.registered, stack, m) && m in todo;
    }
  }

  lemma MarkedPushable(stack: seq<Migration>, todo: seq<Migration>, id: int, now: Clock)
    requires Ascending(todo)
    requires forall name :: name in Names(todo) ==> name !in Names(stack)
    ensures var ms := Marked(todo, id, now);
      && Ascending(ms)
      && (forall m :: m in ms ==> m.name !in Names(stack))
      && (forall i :: 0 <= i < |ms| ==> ms[i].groupID == ms[0].groupID == id)
  {
    var ms := Marked(todo, id, now);
    forall i | 0 <= i < |ms| ensures ms[i].groupID == id { assert ms[i] in ms; }
    forall m | m in ms ensures m.name !in Names(stack) { assert m.name in Names(todo); }
  }

  lemma {:induction false} MarkRowsPush(todo: seq<Migration>, id: int, now: Clock)
    ensures MarkRows(todo, id, now) == PushRows(Marked(todo, id, now))
  {
    forall k | 0 <= k < |todo| ensures MarkRows(todo, id, now)[k] == PushRows(Marked(todo, id, now))[k] {}
  }

  lemma TodoPushable(s: State, stack: seq<Migration>, todo: seq<Migration>, now: Clock) returns (ms: seq<Migration>)
    requires Replay(s.table) == Some(stack) && Ascending(todo)
    requires forall name :: name in Names(todo) ==> name !in Names(stack)
    ensures MarkRows(todo, MaxGroup(Applied(s.table)) + 1, now) == PushRows(ms)
    ensures forall m :: m in ms ==> m.groupID == MaxGroup(Applied(s.table)) + 1 && m.migratedAt == now
    ensures Pushable(stack, ms)
    ensures forall name :: name in Names(ms) <==> name in Names(todo)
    ensures (forall name :: name in Names(todo) ==> name in s.registered) ==> GoodStack(s.registered, ms)
  {
    var id := MaxGroup(Applied(s.table)) + 1;
    ms := Marked(todo, id, now);
    MarkRowsPush(todo, id, now);
    MarkedPushable(stack, todo, id, now);
    if stack != [] { TopBelowNewGroup(s.table, stack); }
  }

  lemma {:induction false} TopBelowNewGroup(table: seq<Row>, stack: seq<Migration>)
    requires Replay(table) == Some(stack) && stack != []
    ensures stack[|stack| - 1].groupID < MaxGroup(Applied(table)) + 1
  {
    AppliedIsStack(table, stack);
    assert stack[|stack| - 1] in stack;
    assert Applied(table)[stack[|stack| - 1].name].groupID <= MaxGroup(Applied(table));
  }

  lemma {:induction false} MarksTodo(s: State, todo: seq<Migration>, rows: seq<Row>, now: Clock, mode: bool, faults: seq<Fault>)
    requires s.registered != [] && todo == SortAsc(Unapplied(WithStatus(s.registered, Applied(s.table))))
    requires rows == MarkRows(todo, MaxGroup(Applied(s.table)) + 1, now)
    ensures MigrateSpec(s.table, s.registered, now, mode, faults) == HandleAll(s.table, rows, mode, faults)
  {
  }

  /** Migrate pushes unapplied migrations, all of them if nothing fails. */
  lemma MigratePushes(s: State, stack: seq<Migration>, now: Clock, mode: bool, faults: seq<Fault>) returns (pushed: seq<Migration>)
    requires Good(s) && Replay(s.table) == Some(stack)
    ensures var r := MigrateSpec(s.table, s.registered, now, mode, faults);
      && Replay(r.table) == Some(stack + pushed)
      && (!r.failed ==> forall name :: name in Names(pushed) <==> name in s.registered && name !in Names(stack))
    ensures Pushable(stack, pushed) && GoodStack(s.registered, pushed)
    ensures forall m :: m in pushed ==> m.groupID == MaxGroup(Applied(s.table)) + 1 && m.migratedAt == now
  {
    if s.registered == [] {
      pushed := [];
      assert stack + [] == stack;
    } else {
      var todo := TodoFacts(s, stack);
      var ms := TodoPushable(s, stack, todo, now);
      var r := HandleAll(s.table, PushRows(ms), mode, faults);
      assert r == MigrateSpec(s.table, s.registered, now, mode, faults) by {
        MarksTodo(s, todo, PushRows(ms), now, mode, faults);
      }
      var k := PushAll(s.table, stack, ms, mode, faults, r);
      pushed := ms[..k];
      PushablePrefix(stack, ms, k);
      assert GoodStack(s.registered, pushed) by { assert GoodStack(s.registered, ms); }
      if k == |ms| { assert pushed == ms; }
    }
  }

  lemma PushablePrefix(stack: seq<Migration>, ms: seq<Migration>, k: nat)
    requires Pushable(stack, ms) && k <= |ms|
    ensures Pushable(stack, ms[..k])
    ensures forall m :: m in ms[..k] ==> m in ms
  {
  }

  /** Where the last group of the stack starts. */
  lemma {:induction false} LastGroupStart(stack: seq<Migration>) returns (i: nat)
    requires Stacked(stack) && stack != []
    ensures i < |stack|
    ensures forall k :: 0 <= k < i ==> stack[k].groupID < stack[|stack| - 1].groupID
    ensures forall k :: i <= k < |stack| ==> stack[k].groupID == stack[|stack| - 1].groupID
  {
    i := |stack| - 1;
    while i > 0 && stack[i - 1].groupID == stack[|stack| - 1].groupID
      invariant i < |stack|
      invariant forall k :: i <= k < |stack| ==> stack[k].groupID == stack[|stack| - 1].groupID
    {
      i := i - 1;
    }
    forall k | 0 <= k < i ensures stack[k].groupID < stack[|stack| - 1].groupID {
      assert k < i - 1 ==> Before(stack[k], stack[i - 1]);
      assert Before(stack[i - 1], stack[|stack| - 1]);
    }
  }

  lemma SplitLastGroup(stack: seq<Migration>) returns (base: seq<Migration>, top: seq<Migration>)
    requires Stacked(stack) && stack != []
    ensures stack == base + top && top != []
    ensures forall k :: 0 <= k < |base| ==> stack[k].groupID < stack[|stack| - 1].groupID
    ensures forall k :: |base| <= k < |stack| ==> stack[k].groupID == stack[|stack| - 1].groupID
    ensures forall m :: m in base ==> m.groupID < stack[|stack| - 1].groupID
    ensures forall m :: m in top ==> m.groupID == stack[|stack| - 1].groupID
  {
    var i := LastGroupStart(stack);
    base, top := stack[..i], stack[i..];
    forall m | m in top ensures m.groupID == stack[|stack| - 1].groupID {
      var k :| 0 <= k < |top| && top[k] == m;
      assert stack[i + k] == m;
    }
  }

  lemma {:induction false} LastIDIsTop(ws: seq<Migration>, registered: seq<Name>, stack: seq<Migration>)
    requires forall m :: m in ws <==> IsStatus(registered, stack, m)
    requires Stacked(stack) && GoodStack(registered, stack)
    ensures LastGroupID(ws) == if stack == [] then 0 else stack[|stack| - 1].groupID
  {
    var id := LastGroupID(ws);
    if stack != [] {
      var last := stack[|stack| - 1];
      assert last in stack && IsStatus(registered, stack, last) && last in ws;
      var m :| m in ws && m.groupID == id;
      assert IsStatus(registered, stack, m) && m in stack;
      var k :| 0 <= k < |stack| && stack[k] == m;
      assert k < |stack| - 1 ==> Before(stack[k], last);
    } else {
      forall m | m in ws ensures m.groupID == 0 { assert IsStatus(registered, stack, m); }
    }
  }

  lemma {:induction false} TopSelected(ws: seq<Migration>, registered: seq<Name>, stack: seq<Migration>, i: nat)
    requires Ascending(ws) && forall m :: m in ws <==> IsStatus(registered, stack, m)
    requires Stacked(stack) && GoodStack(registered, stack) && i < |stack|
    requires forall k :: 0 <= k < i ==> stack[k].groupID < stack[|stack| - 1].groupID
    requires forall k :: i <= k < |stack| ==> stack[k].groupID == stack[|stack| - 1].groupID
    ensures InGroup(ws, stack[|stack| - 1].groupID) == stack[i..]
  {
    var id, top := stack[|stack| - 1].groupID, stack[i..];
    assert stack[|stack| - 1] in stack;
    InGroupSelects(ws, id);
    forall x | x in InGroup(ws, id) ensures x in top {
      assert IsStatus(registered, stack, x) && x in stack;
      var j :| 0 <= j < |stack| && stack[j] == x;
      assert top[j - i] == x;
    }
    forall x | x in top ensures x in InGroup(ws, id) {
      assert x in stack && IsStatus(registered, stack, x);
      var j :| 0 <= j < |top| && top[j] == x;
      assert stack[i + j] == x;
    }
    forall a, b | 0 <= a < b < |top| ensures Less(top[a].name, top[b].name) {
      assert Before(stack[i + a], stack[i + b]);
    }
    AscendingUnique(InGroup(ws, id), top);
  }

  /** Rollback works on the last group of the stack. */
  lemma LastGroupIsTop(s: State, stack: seq<Migration>) returns (base: seq<Migration>, top: seq<Migration>)
    requires Good(s) && Replay(s.table) == Some(stack)
    ensures stack == base + top && (stack != [] ==> top != [])
    ensures LastGroup(WithStatus(s.registered, Applied(s.table)))
         == Group(if stack == [] then 0 else stack[|stack| - 1].groupID, top)
    ensures forall m :: m in base ==> m.groupID < stack[|stack| - 1].groupID
    ensures forall m :: m in top ==> m.groupID == stack[|stack| - 1].groupID
  {
    var ws := WithStatus(s.registered, Applied(s.table));
    StatusFacts(s, stack);
    AppliedIsStack(s.table, stack);
    LastIDIsTop(ws, s.registered, stack);
    if stack == [] {
      base, top := [], [];
    } else {
      base, top := SplitLastGroup(stack);
      TopSelected(ws, s.registered, stack, |base|);
      assert stack[|base|..] == top;
      assert stack[|stack| - 1] in stack;
    }
  }

  /** Rollback pops migrations of the last group, all of it if nothing fails. */
  lemma RollbackPops(s: State, stack: seq<Migration>, mode: bool, faults: seq<Fault>) returns (left: seq<Migration>)
    requires Good(s) && Replay(s.table) == Some(stack)
    ensures var r := RollbackSpec(s.table, s.registered, mode, faults);
      && Replay(r.table) == Some(left)
      && (!r.failed && stack != [] ==> left < stack && forall m :: m in left ==> m.groupID < stack[|stack| - 1].groupID)
    ensures left <= stack
    ensures forall m :: m in stack && m !in left ==> m.groupID == stack[|stack| - 1].groupID
  {
    if s.registered == [] {
      left := stack;
    } else {
      var base, top := LastGroupIsTop(s, stack);
      var k := PopAll(s.table, base, top, mode, faults, RollbackSpec(s.table, s.registered, mode, faults));
      left := base + top[..k];
      PrefixParts(base, top, k);
    }
  }

  lemma PrefixParts<T>(base: seq<T>, top: seq<T>, k: nat)
    requires k <= |top|
    ensures base + top[..k] <= base + top
    ensures k == 0 ==> base + top[..k] == base
    ensures k == 0 && top != [] ==> base + top[..k] < base + top
    ensures forall m :: m in base + top && m !in base + top[..k] ==> m in top
  {
    assert base + top == (base + top[..k]) + top[k..];
  }

  lemma StepKeepsGood(s: State, op: Op)
    requires Good(s)
    ensures Good(Step(s, op))
  {
    var stack := Replay(s.table).value;
    match op
    case Register(_) =>
    case DoMigrate(now, mode, faults) =>
      var pushed := MigratePushes(s, stack, now, mode, faults);
      assert forall m :: m in stack + pushed ==> m in stack || m in pushed;
    case DoRollback(mode, faults) =>
      var left := RollbackPops(s, stack, mode, faults);
      assert forall m :: m in left ==> m in stack;
  }

  lemma {:induction false} RunGood(ops: seq<Op>)
    ensures Good(Run(ops))
  {
    if ops != [] {
      RunGood(ops[..|ops| - 1]);
      StepKeepsGood(Run(ops[..|ops| - 1]), ops[|ops| - 1]);
    }
  }

  // ---------------------------------------------------------------------------
  // Main results
  // ---------------------------------------------------------------------------

  /** Every run leaves net sign 0 or 1 for each name. */
  lemma {:induction false} NetIsZeroOrOne(ops: seq<Op>, name: Name)
    ensures Net(Run(ops).table, name) in {0, 1}
    ensures Net(Run(ops).table, name) == 1 ==> name in Run(ops).registered
  {
    RunGood(ops);
    ReplayReads(Run(ops).table);
  }

  /** The position of the last row that marked a name, or the length of the table. */
  function LastMark(table: seq<Row>, name: Name): (i: nat)
    ensures i <= |table|
    ensures i < |table| ==> table[i].migration.name == name && table[i].sign > 0
  {
    if table == [] then 0
    else
      var last := table[|table| - 1];
      if last.migration.name == name && last.sign > 0 then |table| - 1
      else
        var i := LastMark(table[..|table| - 1], name);
        if i == |table| - 1 then |table| else i
  }

  lemma {:induction false} LastMarkKept(prefix: seq<Row>, row: Row, name: Name)
    requires LastMark(prefix, name) < |prefix| && !(row.migration.name == name && row.sign > 0)
    ensures LastMark(prefix + [row], name) == LastMark(prefix, name)
  {
    var table := prefix + [row];
    assert table[..|table| - 1] == prefix;
  }

  lemma {:induction false} LastMarkNew(prefix: seq<Row>, row: Row)
    requires row.sign > 0
    ensures LastMark(prefix + [row], row.migration.name) == |prefix|
  {
    assert (prefix + [row])[|prefix|] == row;
  }

  predicate InMarkOrder(table: seq<Row>, stack: seq<Migration>) {
    && (forall i :: 0 <= i < |stack| ==> LastMark(table, stack[i].name) < |table|)
    && (forall i, j :: 0 <= i < j < |stack| ==> LastMark(table, stack[i].name) < LastMark(table, stack[j].name))
  }

  /** A row that marks none of them keeps the order. */
  lemma {:induction false} OrderKept(prefix: seq<Row>, row: Row, stack: seq<Migration>)
    requires InMarkOrder(prefix, stack)
    requires forall i :: 0 <= i < |stack| ==> !(row.migration.name == stack[i].name && row.sign > 0)
    ensures InMarkOrder(prefix + [row], stack)
    ensures forall i :: 0 <= i < |stack| ==> LastMark(prefix + [row], stack[i].name) < |prefix|
  {
    forall i | 0 <= i < |stack| ensures LastMark(prefix + [row], stack[i].name) == LastMark(prefix, stack[i].name) {
      LastMarkKept(prefix, row, stack[i].name);
    }
  }

  lemma PushInOrder(prefix: seq<Row>, row: Row, stack: seq<Migration>)
    requires InMarkOrder(prefix, stack) && row.sign == 1 && row.migration.name !in Names(stack)
    ensures InMarkOrder(prefix + [row], stack + [row.migration])
  {
    var table, stack' := prefix + [row], stack + [row.migration];
    assert forall i :: 0 <= i < |stack| ==> stack[i].name in Names(stack);
    OrderKept(prefix, row, stack);
    LastMarkNew(prefix, row);
    forall i | 0 <= i < |stack'| ensures LastMark(table, stack'[i].name) < |table| {
      assert i < |stack| ==> stack'[i] == stack[i];
    }
    forall i, j | 0 <= i < j < |stack'| ensures LastMark(table, stack'[i].name) < LastMark(table, stack'[j].name) {
      assert stack'[i] == stack[i] && (j < |stack| ==> stack'[j] == stack[j]);
    }
  }

  lemma PopInOrder(prefix: seq<Row>, row: Row, stack: seq<Migration>)
    requires InMarkOrder(prefix, stack) && row.sign == -1 && stack != []
    ensures InMarkOrder(prefix + [row], stack[..|stack| - 1])
  {
    var rest := stack[..|stack| - 1];
    assert InMarkOrder(prefix, rest);
    OrderKept(prefix, row, rest);
  }

  /** The stack holds the migrations in the order in which they were marked. */
  lemma {:induction false} StackInMarkOrder(table: seq<Row>)
    requires Replay(table).Some?
    ensures InMarkOrder(table, Replay(table).value)
  {
    if table != [] {
      var prefix, row := table[..|table| - 1], table[|table| - 1];
      assert table == prefix + [row];
      LastRow(prefix, row);
      StackInMarkOrder(prefix);
      var stack := Replay(prefix).value;
      if row.sign == 1 {
        PushInOrder(prefix, row, stack);
      } else {
        PopInOrder(prefix, row, stack);
      }
    }
  }

  lemma {:induction false} ReplayPrefix(table: seq<Row>, i: nat)
    requires Replay(table).Some? && i <= |table|
    ensures Replay(table[..i]).Some?
    decreases |table|
  {
    if i == |table| {
      assert table[..i] == table;
    } else {
      ReplayPrefix(table[..|table| - 1], i);
      assert table[..|table| - 1][..i] == table[..i];
    }
  }

  lemma {:induction false} OthersOlder(table: seq<Row>, stack: seq<Migration>, name: Name)
    requires InMarkOrder(table, stack) && stack != []
    requires name in Names(stack) && name != stack[|stack| - 1].name
    ensures LastMark(table, name) < LastMark(table, stack[|stack| - 1].name)
  {
    var k :| 0 <= k < |stack| && stack[k].name == name;
    assert k < |stack| - 1;
  }

  /** The migration was applied, and every other applied one had been marked before it. */
  ghost predicate MarkedLast(table: seq<Row>, m: Migration) {
    && m.name in Applied(table) && Applied(table)[m.name] == m
    && forall name :: name in Applied(table) && name != m.name ==> LastMark(table, name) < LastMark(table, m.name)
  }

  lemma {:induction false} TopMarkedLast(table: seq<Row>, stack: seq<Migration>)
    requires Replay(table) == Some(stack) && stack != []
    ensures MarkedLast(table, stack[|stack| - 1])
  {
    var m := stack[|stack| - 1];
    assert m in stack;
    AppliedIsStack(table, stack);
    StackInMarkOrder(table);
    forall name | name in Applied(table) && name != m.name ensures LastMark(table, name) < LastMark(table, m.name) {
      assert name in Names(stack);
      OthersOlder(table, stack, name);
    }
  }

  lemma {:induction false} CancelledIsTop(table: seq<Row>, i: nat)
    requires i < |table| && Replay(table).Some? && table[i].sign != 1
    ensures table[i].sign == -1 && MarkedLast(table[..i], table[i].migration)
  {
    var before, row := table[..i], table[i];
    assert Replay(before + [row]).Some? by {
      ReplayPrefix(table, i + 1);
      TakeOneMore(table, i);
    }
    LastRow(before, row);
    TopMarkedLast(before, Replay(before).value);
  }

  /** Last in, first out, over every run: a cancelled migration was applied at that point,
      and every other migration applied at that point had been marked before it. */
  lemma {:induction false} CancelsLastMarked(ops: seq<Op>, i: nat)
    requires i < |Run(ops).table| && Run(ops).table[i].sign != 1
    ensures var before, row := Run(ops).table[..i], Run(ops).table[i];
      var m := row.migration;
      && row.sign == -1
      && m.name in Applied(before) && Applied(before)[m.name] == m
      && forall name :: name in Applied(before) && name != m.name ==> LastMark(before, name) < LastMark(before, m.name)
  {
    RunGood(ops);
    CancelledIsTop(Run(ops).table, i);
  }

  /** Migrate uses a group id above all applied ones, and without a failure it leaves every
      registered migration applied. */
  lemma {:induction false} MigrateApplies(ops: seq<Op>, now: Clock, mode: bool, faults: seq<Fault>)
    ensures var s, t := Run(ops), Run(ops + [DoMigrate(now, mode, faults)]);
      && (forall name :: name in Applied(s.table) ==> name in Applied(t.table) && Applied(t.table)[name] == Applied(s.table)[name])
      && (forall name :: name in Applied(t.table) && name !in Applied(s.table)
            ==> Applied(t.table)[name] == Migration(name, MaxGroup(Applied(s.table)) + 1, now))
      && (!MigrateSpec(s.table, s.registered, now, mode, faults).failed ==>
            forall name :: name in Applied(t.table) <==> name in s.registered)
  {
    var s, op := Run(ops), DoMigrate(now, mode, faults);
    assert (ops + [op])[..|ops|] == ops;
    RunGood(ops);
    var t := Step(s, op);
    var stack := Replay(s.table).value;
    var pushed := MigratePushes(s, stack, now, mode, faults);
    AppliedGrows(s.table, t.table, stack, pushed);
    forall name | name in Applied(t.table) && name !in Applied(s.table)
      ensures Applied(t.table)[name] == Migration(name, MaxGroup(Applied(s.table)) + 1, now)
    {
      assert Applied(t.table)[name] in pushed;
    }
  }

  /** Pushing leaves the applied migrations as they are, and adds those that are pushed. */
  lemma {:induction false} AppliedGrows(before: seq<Row>, after: seq<Row>, stack: seq<Migration>, pushed: seq<Migration>)
    requires Replay(before) == Some(stack) && Replay(after) == Some(stack + pushed)
    ensures Applied(before).Keys == Names(stack) && Applied(after).Keys == Names(stack) + Names(pushed)
    ensures forall name :: name in Applied(before) ==> name in Applied(after) && Applied(after)[name] == Applied(before)[name]
    ensures forall name :: name in Applied(after) && name !in Applied(before) ==>
      Applied(after)[name] in pushed && Applied(after)[name].name == name
  {
    AppliedIsStack(before, stack);
    AppliedIsStack(after, stack + pushed);
    NamesConcat(stack, pushed);
    forall name | name in Applied(before) ensures name in Applied(after) && Applied(after)[name] == Applied(before)[name] {
      var m :| m in stack && m.name == name;
      assert m in stack + pushed;
    }
    forall name | name in Applied(after) && name !in Applied(before)
      ensures Applied(after)[name] in pushed && Applied(after)[name].name == name
    {
      var m :| m in pushed && m.name == name;
      assert m in stack + pushed;
    }
  }

  lemma NamesConcat(a: seq<Migration>, b: seq<Migration>)
    ensures Names(a + b) == Names(a) + Names(b)
  {
    assert forall m :: m in a + b <==> m in a || m in b;
  }

  /** A rollback that does not fail undoes exactly the last group: the applied migrations
      of the other groups stay as they are. */
  lemma {:induction false} RollbackRemovesLastGroup(ops: seq<Op>, mode: bool, faults: seq<Fault>)
    requires !RollbackSpec(Run(ops).table, Run(ops).registered, mode, faults).failed
    ensures var s, t := Run(ops), Run(ops + [DoRollback(mode, faults)]);
      forall m :: m in Applied(t.table).Values <==> m in Applied(s.table).Values && m.groupID != MaxGroup(Applied(s.table))
  {
    var s, op := Run(ops), DoRollback(mode, faults);
    assert (ops + [op])[..|ops|] == ops;
    RunGood(ops);
    var t := Step(s, op);
    var stack := Replay(s.table).value;
    var left := RollbackPops(s, stack, mode, faults);
    AppliedIsStack(s.table, stack);
    AppliedIsStack(t.table, left);
    if stack != [] { MaxGroupIsTop(s.table, stack); }
    forall m | m in left ensures m in stack {}
  }

  lemma {:induction false} MaxGroupIsTop(table: seq<Row>, stack: seq<Migration>)
    requires Replay(table) == Some(stack) && stack != [] && stack[|stack| - 1].groupID >= 1
    ensures MaxGroup(Applied(table)) == stack[|stack| - 1].groupID
  {
    AppliedIsStack(table, stack);
    var applied, top := Applied(table), stack[|stack| - 1];
    assert top in stack && applied[top.name] == top;
    var name :| name in applied && applied[name].groupID == MaxGroup(applied);
    assert applied[name] in applied.Values;
    var k :| 0 <= k < |stack| && stack[k] == applied[name];
    assert k < |stack| - 1 ==> Before(stack[k], top);
  }

  lemma {:induction false} NoFaultsNoFailure(table: seq<Row>, rows: seq<Row>, mode: bool)
    ensures !HandleAll(table, rows, mode, []).failed
    decreases |rows|
  {
    if rows != [] { NoFaultsNoFailure(table + [rows[0]], rows[1..], mode); }
  }

  /** `left` is what a rollback of the group `id` leaves of `stack + pushed`. */
  predicate LeavesLower(stack: seq<Migration>, pushed: seq<Migration>, left: seq<Migration>, id: int) {
    && Stacked(stack + pushed) && left <= stack + pushed
    && (forall m :: m in stack ==> m.groupID < id)
    && (forall m :: m in pushed ==> m.groupID == id)
    && (forall m :: m in left ==> m.groupID < id)
    && (forall m :: m in stack + pushed && m !in left ==> m.groupID == id)
  }

  lemma LeftOrPushed(stack: seq<Migration>, pushed: seq<Migration>, left: seq<Migration>, id: int, k: nat)
    requires LeavesLower(stack, pushed, left, id) && k < |stack + pushed|
    ensures k < |left| <==> k < |stack|
  {
    var all := stack + pushed;
    var m := all[k];
    assert m in all && (k < |left| ==> left[k] == m);
    if k < |stack| {
      assert m == stack[k] && m in stack;
      var j :| 0 <= j < |left| && left[j] == m;
      assert all[j].name == all[k].name;
    } else {
      assert m == pushed[k - |stack|] && m in pushed;
    }
  }

  lemma PushedIsLastGroup(stack: seq<Migration>, pushed: seq<Migration>, left: seq<Migration>, id: int)
    requires LeavesLower(stack, pushed, left, id) && pushed != []
    ensures left == stack
  {
    LeftOrPushed(stack, pushed, left, id, |stack|);
    if |left| < |stack + pushed| { LeftOrPushed(stack, pushed, left, id, |left|); }
    assert left == (stack + pushed)[..|stack|];
  }

  /** Migrate followed by Rollback, both without a failure, restores what was applied. */
  lemma {:induction false} RollbackUndoesMigrate(ops: seq<Op>, now: Clock, mode: bool, undoMode: bool, name: Name)
    requires name in Run(ops).registered && name !in Applied(Run(ops).table)
    ensures Applied(Run(ops + [DoMigrate(now, mode, []), DoRollback(undoMode, [])]).table) == Applied(Run(ops).table)
  {
    var up, down := DoMigrate(now, mode, []), DoRollback(undoMode, []);
    assert (ops + [up])[..|ops|] == ops;
    assert (ops + [up, down])[..|ops| + 1] == ops + [up];
    RunGood(ops);
    UndoStep(Run(ops), now, mode, undoMode, name);
  }

  lemma UndoStep(s: State, now: Clock, mode: bool, undoMode: bool, name: Name)
    requires Good(s) && name in s.registered && name !in Applied(s.table)
    ensures Applied(Step(Step(s, DoMigrate(now, mode, [])), DoRollback(undoMode, [])).table) == Applied(s.table)
  {
    var mid := Step(s, DoMigrate(now, mode, []));
    var stack := Replay(s.table).value;
    AppliedIsStack(s.table, stack);
    MigrateSucceeds(s, now, mode);
    var pushed := MigratePushes(s, stack, now, mode, []);
    assert name in Names(pushed);
    UndoPushed(s, mid, stack, pushed, undoMode);
  }

  lemma UndoPushed(s: State, mid: State, stack: seq<Migration>, pushed: seq<Migration>, undoMode: bool)
    requires Replay(s.table) == Some(stack) && Good(mid) && Replay(mid.table) == Some(stack + pushed)
    requires pushed != [] && mid.registered != []
    requires forall m :: m in pushed ==> m.groupID == MaxGroup(Applied(s.table)) + 1
    ensures Applied(Step(mid, DoRollback(undoMode, [])).table) == Applied(s.table)
  {
    var id := MaxGroup(Applied(s.table)) + 1;
    var all := stack + pushed;
    RollbackSucceeds(mid, undoMode);
    var left := RollbackPops(mid, all, undoMode, []);
    assert all[|all| - 1] == pushed[|pushed| - 1] && pushed[|pushed| - 1] in pushed;
    assert forall m :: m in stack ==> m.groupID < id by {
      AppliedIsStack(s.table, stack);
      forall m | m in stack ensures m.groupID < id { assert Applied(s.table)[m.name] == m; }
    }
    assert Stacked(all) by { AppliedIsStack(mid.table, all); }
    PushedIsLastGroup(stack, pushed, left, id);
    SameStackSameApplied(Step(mid, DoRollback(undoMode, [])).table, s.table, stack);
  }

  lemma {:induction false} SameStackSameApplied(a: seq<Row>, b: seq<Row>, stack: seq<Migration>)
    requires Replay(a) == Some(stack) && Replay(b) == Some(stack)
    ensures Applied(a) == Applied(b)
  {
    AppliedIsStack(a, stack);
    AppliedIsStack(b, stack);
    forall name | name in Applied(a) ensures Applied(a)[name] == Applied(b)[name] {
      var m :| m in stack && m.name == name;
    }
  }

  lemma MigrateSucceeds(s: State, now: nat, mode: bool)
    requires s.registered != []
    ensures !MigrateSpec(s.table, s.registered, now, mode, []).failed
  {
    var applied := Applied(s.table);
    var todo := SortAsc(Unapplied(WithStatus(s.registered, applied)));
    NoFaultsNoFailure(s.table, MarkRows(todo, MaxGroup(applied) + 1, now), mode);
  }

  lemma RollbackSucceeds(s: State, mode: bool)
    requires s.registered != []
    ensures !RollbackSpec(s.table, s.registered, mode, []).failed
  {
    var group := LastGroup(WithStatus(s.registered, Applied(s.table)));
    NoFaultsNoFailure(s.table, CancelRows(group.migrations), mode);
  }

  /** The first part of the reset command: roll back until there is no group left. */
  method RollbackAll(m: Migrator, faults: seq<seq<Fault>>) returns (failed: bool)
    requires Good(State(m.registered, m.table))
    modifies m`table
    ensures Good(State(m.registered, m.table))
    ensures !failed ==> Applied(m.table) == map[]
  {
    var i := 0;
    while true
      invariant Good(State(m.registered, m.table))
      decreases |Replay(m.table).value|
    {
      ghost var s := State(m.registered, m.table);
      ghost var stack := Replay(m.table).value;
      ghost var mode, now := m.markAppliedOnSuccess, if i < |faults| then faults[i] else [];
      ghost var left := RollbackPops(s, stack, mode, now);
      StepKeepsGood(s, DoRollback(mode, now));
      ghost var base, top := LastGroupIsTop(s, stack);
      assert stack != [] ==> stack[|stack| - 1] in stack;
      var group, err := m.Rollback(if i < |faults| then faults[i] else []);
      if err { return true; }
      if group.id == 0 {
        AppliedIsStack(m.table, left);
        return false;
      }
      i := i + 1;
    }
  }
}
