/** Start-up seeding of the three lookup tables: each configured row whose
    name is not yet stored is inserted, in configuration order, with fresh
    ids; a table with nothing missing is left alone and not committed. */
module Seeding {
  import opened Results
  import opened Text
  import opened Store
  import Config

  /** The stored names of a lookup table (`select(<Model>.name)`). */
  function Names<A>(t: Table<Row<A>>): (ns: set<string>)
    ensures forall k :: k in t.rows ==> t.rows[k].name in ns
  {
    set k | k in t.rows :: t.rows[k].name
  }

  /** A name is among the stored names exactly when some row carries it. */
  lemma NamesStored<A>(t: Table<Row<A>>, x: string)
    ensures x in Names(t) <==> HasName(t, x)
  {
  }

  /** No configured name is listed twice. */
  predicate DistinctNames<A>(config: seq<(string, A)>) {
    forall i, j :: 0 <= i < j < |config| ==> config[i].0 != config[j].0
  }

  /** The configured entries whose name is not stored yet, in configuration
      order. The stored names are read once, before anything is inserted. */
  function Missing<A(!new)>(t: Table<Row<A>>, config: seq<(string, A)>): seq<(string, A)> {
    if |config| == 0 then []
    else (if config[0].0 in Names(t) then [] else [config[0]]) + Missing(t, config[1..])
  }

  /** An entry is missing exactly when it is configured and its name is not
      stored; distinct configured names give distinct missing names. */
  lemma {:induction false} MissingMembers<A(!new)>(t: Table<Row<A>>, config: seq<(string, A)>)
    ensures forall e :: e in Missing(t, config) <==> e in config && e.0 !in Names(t)
    ensures DistinctNames(config) ==> DistinctNames(Missing(t, config))
    decreases |config|
  {
    if |config| > 0 {
      var rest := Missing(t, config[1..]);
      MissingMembers(t, config[1..]);
      assert forall e :: e in config <==> e == config[0] || e in config[1..];
      assert DistinctNames(config) ==> DistinctNames(config[1..]) by {
        if DistinctNames(config) {
          forall i, j | 0 <= i < j < |config[1..]|
            ensures config[1..][i].0 != config[1..][j].0
          {
            assert config[1..][i] == config[i + 1] && config[1..][j] == config[j + 1];
          }
        }
      }
      if config[0].0 !in Names(t) && DistinctNames(config) {
        forall e | e in rest
          ensures e.0 != config[0].0
        {
          var j :| 0 <= j < |config[1..]| && config[1..][j] == e;
          assert e == config[j + 1];
        }
        var m := Missing(t, config);
        assert m == [config[0]] + rest;
        forall i, j | 0 <= i < j < |m|
          ensures m[i].0 != m[j].0
        {
          if i == 0 {
            assert m[j] == rest[j - 1] && m[j] in rest;
          } else {
            assert m[i] == rest[i - 1] && m[j] == rest[j - 1];
          }
        }
      }
    }
  }

  /** Filtering respects concatenation, so the missing entries keep the
      relative order they have in the configuration. */
  lemma {:induction false} MissingKeepsOrder<A(!new)>(t: Table<Row<A>>, a: seq<(string, A)>, b: seq<(string, A)>)
    ensures Missing(t, a + b) == Missing(t, a) + Missing(t, b)
    decreases |a|
  {
    if |a| > 0 {
      assert (a + b)[0] == a[0];
      assert (a + b)[1..] == a[1..] + b;
      MissingKeepsOrder(t, a[1..], b);
      var head: seq<(string, A)> := if a[0].0 in Names(t) then [] else [a[0]];
      assert Missing(t, a + b) == head + Missing(t, a[1..] + b);
      assert Missing(t, a) == head + Missing(t, a[1..]);
      assert head + (Missing(t, a[1..]) + Missing(t, b)) == (head + Missing(t, a[1..])) + Missing(t, b);
    } else {
      assert a + b == b;
    }
  }

  /** One entry is kept exactly when its name is not stored. */
  lemma MissingOne<A(!new)>(t: Table<Row<A>>, e: (string, A))
    ensures Missing(t, [e]) == if e.0 in Names(t) then [] else [e]
  {
    assert [e][1..] == [];
  }

  /** `session.add_all(...)` followed by the flush: the entries become rows
      with consecutive ids from the table's sequence, in list order. */
  function Append<A>(t: Table<Row<A>>, entries: seq<(string, A)>): (r: Table<Row<A>>)
    requires RowsKeyed(t)
    ensures RowsKeyed(r)
    ensures r.next == t.next + |entries|
    ensures forall k :: k in r.rows <==> k in t.rows || t.next <= k < r.next
    ensures forall k :: k in t.rows ==> r.rows[k] == t.rows[k]
    ensures forall k :: t.next <= k < r.next ==> r.rows[k] == Row(k, entries[k - t.next].0, entries[k - t.next].1)
  {
    var added := map k | t.next <= k < t.next + |entries| :: NewRow(t.next, entries, k);
    Table(t.rows + added, t.next + |entries|)
  }

  /** The row the entry at position `k - start` gets under id `k`. */
  function NewRow<A>(start: int, entries: seq<(string, A)>, k: int): Row<A>
    requires start <= k < start + |entries|
  {
    Row(k, entries[k - start].0, entries[k - start].1)
  }

  /** One seeding step (`insert_role_permissions`, `insert_task_priorities`,
      `insert_task_statuses` share this shape): the table afterwards and
      whether a commit happened. Appending nothing leaves the table as it
      was, which is what skipping `add_all` does. */
  function InsertMissing<A(!new)>(t: Table<Row<A>>, config: seq<(string, A)>): (r: (Table<Row<A>>, bool))
    requires RowsKeyed(t)
    ensures RowsKeyed(r.0)
    ensures !r.1 ==> r.0 == t
    ensures forall k :: k in t.rows ==> k in r.0.rows && r.0.rows[k] == t.rows[k]
  {
    var m := Missing(t, config);
    (Append(t, m), |m| > 0)
  }

  /** A step commits exactly when some configured name is not stored yet. */
  lemma CommitsWhenMissing<A(!new)>(t: Table<Row<A>>, config: seq<(string, A)>)
    requires RowsKeyed(t)
    ensures InsertMissing(t, config).1 <==> exists e :: e in config && e.0 !in Names(t)
  {
    MissingMembers(t, config);
    var m := Missing(t, config);
    assert |m| > 0 ==> m[0] in m;
  }

  /** After a step every configured name is stored. */
  lemma InsertCovers<A(!new)>(t: Table<Row<A>>, config: seq<(string, A)>)
    requires RowsKeyed(t)
    ensures forall i :: 0 <= i < |config| ==> config[i].0 in Names(InsertMissing(t, config).0)
  {
    var m := Missing(t, config);
    var r := InsertMissing(t, config).0;
    MissingMembers(t, config);
    forall i | 0 <= i < |config|
      ensures config[i].0 in Names(r)
    {
      if config[i].0 in Names(t) {
        var k :| k in t.rows && t.rows[k].name == config[i].0;
        assert r.rows[k] == t.rows[k];
      } else {
        assert config[i] in config;
        var j :| 0 <= j < |m| && m[j] == config[i];
        var k := t.next + j;
        assert r.rows[k].name == config[i].0;
      }
    }
  }

  /** The rows a seeding step adds are exactly the missing entries, in
      configuration order, under the ids following the table's last one. */
  lemma InsertedExactly<A(!new)>(t: Table<Row<A>>, config: seq<(string, A)>)
    requires RowsKeyed(t)
    ensures var r := InsertMissing(t, config).0;
      var m := Missing(t, config);
      && r.next == t.next + |m|
      && (forall k :: k in r.rows <==> k in t.rows || t.next <= k < r.next)
      && (forall k :: t.next <= k < r.next ==> r.rows[k] == Row(k, m[k - t.next].0, m[k - t.next].1))
  {
    AppendedInOrder(t, Missing(t, config));
  }

  /** The contract of `Append` for an arbitrary list, so that a caller can
      use it without unfolding the list it passes. */
  lemma AppendedInOrder<A(!new)>(t: Table<Row<A>>, m: seq<(string, A)>)
    requires RowsKeyed(t)
    ensures var r := Append(t, m);
      && r.next == t.next + |m|
      && (forall k :: k in r.rows <==> k in t.rows || t.next <= k < r.next)
      && (forall k :: t.next <= k < r.next ==> r.rows[k] == Row(k, m[k - t.next].0, m[k - t.next].1))
  {
  }

  /** Every added row is a configured entry whose name was not stored. */
  lemma InsertedFromConfig<A(!new)>(t: Table<Row<A>>, config: seq<(string, A)>)
    requires RowsKeyed(t)
    ensures var r := InsertMissing(t, config).0;
      forall k :: k in r.rows && k !in t.rows ==>
        (r.rows[k].name, r.rows[k].data) in config && r.rows[k].name !in Names(t)
  {
    var r := InsertMissing(t, config).0;
    var m := Missing(t, config);
    InsertedExactly(t, config);
    MissingMembers(t, config);
    forall k | k in r.rows && k !in t.rows
      ensures (r.rows[k].name, r.rows[k].data) in config && r.rows[k].name !in Names(t)
    {
      assert m[k - t.next] in m;
    }
  }

  /** Running a seeding step a second time inserts nothing and skips the
      commit. */
  lemma InsertMissingIdempotent<A(!new)>(t: Table<Row<A>>, config: seq<(string, A)>)
    requires RowsKeyed(t)
    ensures InsertMissing(InsertMissing(t, config).0, config) == (InsertMissing(t, config).0, false)
  {
    var r := InsertMissing(t, config).0;
    InsertCovers(t, config);
    forall e | e in config
      ensures e.0 in Names(r)
    {
      var i :| 0 <= i < |config| && config[i] == e;
    }
    CommitsWhenMissing(r, config);
  }

  /** With distinct configured names, a table whose names are unique keeps
      them unique. */
  lemma InsertKeepsUniqueNames<A(!new)>(t: Table<Row<A>>, config: seq<(string, A)>)
    requires RowsKeyed(t) && UniqueNames(t) && DistinctNames(config)
    ensures UniqueNames(InsertMissing(t, config).0)
  {
    InsertedExactly(t, config);
    InsertedFromConfig(t, config);
    MissingMembers(t, config);
  }

  // ---- the three tables ----

  /** `ROLE_PERMISSIONS`: position and description. */
  function RoleEntries(): (es: seq<(string, Option<string>)>)
    ensures |es| == |Config.RoleNames|
    ensures forall i :: 0 <= i < |es| ==> es[i] == (Config.Roles[i].0, Some(Config.Roles[i].1))
  {
    seq(|Config.Roles|, i requires 0 <= i < |Config.Roles| => (Config.Roles[i].0, Some(Config.Roles[i].1)))
  }

  /** `TASK_PRIORITY_LABELS`, matched by label, carrying the level. */
  function PriorityEntries(): (es: seq<(string, int)>)
    ensures |es| == |Config.PriorityNames|
    ensures forall i :: 0 <= i < |es| ==> es[i] == (Config.PriorityLabels[i].1, Config.PriorityLabels[i].0)
  {
    seq(|Config.PriorityLabels|, i requires 0 <= i < |Config.PriorityLabels| =>
      (Config.PriorityLabels[i].1, Config.PriorityLabels[i].0))
  }

  /** `TASK_STATUSES`. */
  function StatusEntries(): (es: seq<(string, ())>)
    ensures |es| == |Config.Statuses|
    ensures forall i :: 0 <= i < |es| ==> es[i] == (Config.Statuses[i], ())
  {
    seq(|Config.Statuses|, i requires 0 <= i < |Config.Statuses| => (Config.Statuses[i], ()))
  }

  lemma EntriesDistinct()
    ensures DistinctNames(RoleEntries()) && DistinctNames(PriorityEntries()) && DistinctNames(StatusEntries())
  {
    Config.RoleNamesAgree();
    Config.PriorityNamesAgree();
  }

  ghost predicate Seedable(db: Db) {
    RowsKeyed(db.roles) && RowsKeyed(db.priorities) && RowsKeyed(db.statuses)
  }

  /** `insert_all_initial_db_data`: roles, then priorities, then statuses;
      the flags say which of the three steps committed. Only the lookup
      tables change. */
  function SeedAll(db: Db): (r: (Db, seq<bool>))
    requires Seedable(db)
    ensures Seedable(r.0)
    ensures |r.1| == 3
    ensures r.0.users == db.users && r.0.tasks == db.tasks && r.0.performers == db.performers
  {
    var (roles, c1) := InsertMissing(db.roles, RoleEntries());
    var (priorities, c2) := InsertMissing(db.priorities, PriorityEntries());
    var (statuses, c3) := InsertMissing(db.statuses, StatusEntries());
    (db.(roles := roles, priorities := priorities, statuses := statuses), [c1, c2, c3])
  }

  /** After seeding every configured name is stored, and no stored row
      changed. */
  lemma SeedAllSeeds(db: Db)
    requires Seedable(db)
    ensures Seeded(SeedAll(db).0)
    ensures var d := SeedAll(db).0;
      && (forall k :: k in db.roles.rows ==> k in d.roles.rows && d.roles.rows[k] == db.roles.rows[k])
      && (forall k :: k in db.priorities.rows ==> k in d.priorities.rows && d.priorities.rows[k] == db.priorities.rows[k])
      && (forall k :: k in db.statuses.rows ==> k in d.statuses.rows && d.statuses.rows[k] == db.statuses.rows[k])
  {
    var d := SeedAll(db).0;
    assert d.roles == InsertMissing(db.roles, RoleEntries()).0;
    assert d.priorities == InsertMissing(db.priorities, PriorityEntries()).0;
    assert d.statuses == InsertMissing(db.statuses, StatusEntries()).0;
    InsertCovers(db.roles, RoleEntries());
    InsertCovers(db.priorities, PriorityEntries());
    InsertCovers(db.statuses, StatusEntries());
    forall i | 0 <= i < |Config.RoleNames|
      ensures HasName(d.roles, Config.RoleNames[i])
    {
      Config.RoleNamesAgree();
      assert RoleEntries()[i].0 == Config.RoleNames[i];
    }
    forall i | 0 <= i < |Config.PriorityNames|
      ensures HasName(d.priorities, Config.PriorityNames[i])
    {
      Config.PriorityNamesAgree();
      assert PriorityEntries()[i].0 == Config.PriorityNames[i];
    }
    forall i | 0 <= i < |Config.Statuses|
      ensures HasName(d.statuses, Config.Statuses[i])
    {
      assert StatusEntries()[i].0 == Config.Statuses[i];
    }
  }

  /** Seeding a second time changes nothing and commits nothing. */
  lemma SeedAllIdempotent(db: Db)
    requires Seedable(db)
    ensures SeedAll(SeedAll(db).0) == (SeedAll(db).0, [false, false, false])
  {
    InsertMissingIdempotent(db.roles, RoleEntries());
    InsertMissingIdempotent(db.priorities, PriorityEntries());
    InsertMissingIdempotent(db.statuses, StatusEntries());
  }

  /** Seeding keeps the store consistent: the lookup tables only grow and
      their names stay unique. */
  lemma SeedAllKeepsValid(db: Db)
    requires Valid(db)
    ensures Valid(SeedAll(db).0)
  {
    EntriesDistinct();
    InsertKeepsUniqueNames(db.roles, RoleEntries());
    InsertKeepsUniqueNames(db.priorities, PriorityEntries());
    InsertKeepsUniqueNames(db.statuses, StatusEntries());
    var d := SeedAll(db).0;
    assert d.roles == InsertMissing(db.roles, RoleEntries()).0;
    assert d.priorities == InsertMissing(db.priorities, PriorityEntries()).0;
    assert d.statuses == InsertMissing(db.statuses, StatusEntries()).0;
    assert UserRefs(d);
    assert TaskRefs(d);
  }

  /** Seeding an empty table inserts the whole configuration under ids
      1, 2, ... in order. */
  lemma FreshTable<A(!new)>(t: Table<Row<A>>, config: seq<(string, A)>)
    requires t.rows == map[] && t.next == 1
    ensures var r := InsertMissing(t, config).0;
      forall k :: 1 <= k <= |config| ==> k in r.rows && r.rows[k] == Row(k, config[k - 1].0, config[k - 1].1)
  {
    MissingOfEmpty(t, config);
    InsertedExactly(t, config);
  }

  /** Seeding an empty store gives a consistent, fully seeded store. */
  lemma FreshSeedValid()
    ensures Valid(SeedAll(EmptyDb()).0) && Seeded(SeedAll(EmptyDb()).0)
  {
    EmptyDbValid();
    SeedAllKeepsValid(EmptyDb());
    SeedAllSeeds(EmptyDb());
  }

  /** Seeding a store without roles numbers the roles 1..4 in configuration
      order. */
  lemma FreshRoles(db: Db)
    requires Seedable(db) && db.roles.rows == map[] && db.roles.next == 1
    ensures var d := SeedAll(db).0;
      forall i :: 0 <= i < |Config.Roles| ==>
        i + 1 in d.roles.rows && d.roles.rows[i + 1] == Row(i + 1, Config.Roles[i].0, Some(Config.Roles[i].1))
  {
    var d := SeedAll(db).0;
    assert d.roles == InsertMissing(db.roles, RoleEntries()).0;
    FreshTable(db.roles, RoleEntries());
    forall i | 0 <= i < |Config.Roles|
      ensures i + 1 in d.roles.rows && d.roles.rows[i + 1] == Row(i + 1, Config.Roles[i].0, Some(Config.Roles[i].1))
    {
      assert RoleEntries()[(i + 1) - 1] == (Config.Roles[i].0, Some(Config.Roles[i].1));
    }
  }

  /** Seeding a store without statuses numbers the statuses 1..4 in
      configuration order, so status 1 is "TODO". */
  lemma FreshStatuses(db: Db)
    requires Seedable(db) && db.statuses.rows == map[] && db.statuses.next == 1
    ensures var d := SeedAll(db).0;
      forall i :: 0 <= i < |Config.Statuses| ==>
        i + 1 in d.statuses.rows && d.statuses.rows[i + 1] == Row(i + 1, Config.Statuses[i], ())
  {
    var d := SeedAll(db).0;
    assert d.statuses == InsertMissing(db.statuses, StatusEntries()).0;
    FreshTable(db.statuses, StatusEntries());
    forall i | 0 <= i < |Config.Statuses|
      ensures i + 1 in d.statuses.rows && d.statuses.rows[i + 1] == Row(i + 1, Config.Statuses[i], ())
    {
      assert StatusEntries()[(i + 1) - 1] == (Config.Statuses[i], ());
    }
  }

  /** Seeding a store without priorities and statuses gives the priority
      with level l the id l and status 1 the name "TODO": the ids the task
      code relies on. */
  lemma FreshSeedAligned(db: Db)
    requires Seedable(db) && db.priorities.rows == map[] && db.priorities.next == 1
    requires db.statuses.rows == map[] && db.statuses.next == 1
    ensures Aligned(SeedAll(db).0)
  {
    var d := SeedAll(db).0;
    assert d.priorities == InsertMissing(db.priorities, PriorityEntries()).0;
    FreshTable(db.priorities, PriorityEntries());
    Config.PriorityNamesAgree();
    forall l | 1 <= l <= 5
      ensures l in d.priorities.rows && d.priorities.rows[l].data == l
    {
      assert PriorityEntries()[l - 1].1 == l;
    }
    FreshStatuses(db);
    assert d.statuses.rows[0 + 1].name == Config.Statuses[0];
  }

  /** Nothing is stored, so everything configured is missing. */
  lemma {:induction false} MissingOfEmpty<A(!new)>(t: Table<Row<A>>, config: seq<(string, A)>)
    requires Names(t) == {}
    ensures Missing(t, config) == config
    decreases |config|
  {
    if |config| > 0 {
      MissingOfEmpty(t, config[1..]);
      assert config == [config[0]] + config[1..];
    }
  }
}
