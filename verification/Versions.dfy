/** Collection versions: a table of versions and the projects' configured version, changed by
    separate transactions. */
module Versions {
  import opened Common
  import Text
  import TextLaws

  datatype Row = Row(embeddingModel: string, chunkerVersion: string, collectionName: string, createdAt: real, active: bool)

  /** The `versions` table by project and version, and each project's `active_embedding_version`. */
  datatype Db = Db(rows: map<(string, string), Row>, configs: map<string, string>)

  ghost predicate AtMostOneActive(db: Db) {
    forall p, v, w :: (p, v) in db.rows && (p, w) in db.rows && db.rows[(p, v)].active && db.rows[(p, w)].active ==> v == w
  }

  /** The configured version of the project has a row, and that row is active. */
  ghost predicate Consistent(db: Db, project: string) {
    && project in db.configs && (project, db.configs[project]) in db.rows
    && db.rows[(project, db.configs[project])].active
  }

  datatype Outcome = Done | VersionNotFound | InvalidVersion | ProjectNotFound

  predicate Blank(version: string) {
    Text.Strip(version) == ""
  }

  // ---- the operations as functions of the database ----

  function NewRow(project: string, version: string, model: string, chunker: string, now: real): Row {
    Row(model, chunker, "rag_" + project + "_" + version, now, false)
  }

  /** The rows of one project with only `version` active. */
  function OnlyActive(rows: map<(string, string), Row>, project: string, version: string): map<(string, string), Row> {
    map k | k in rows :: if k.0 == project then rows[k].(active := k.1 == version) else rows[k]
  }

  function ActivateOutcome(db: Db, project: string, version: string): Outcome {
    if (project, version) !in db.rows then VersionNotFound
    else if Blank(version) then InvalidVersion
    else if project !in db.configs then ProjectNotFound
    else Done
  }

  /** The rows change as soon as the version exists; the config only if it accepts the version. */
  function AfterActivate(db: Db, project: string, version: string): Db {
    if (project, version) !in db.rows then db
    else
      Db(OnlyActive(db.rows, project, version),
         if ActivateOutcome(db, project, version) == Done then db.configs[project := version] else db.configs)
  }

  function AfterInsert(db: Db, project: string, version: string, model: string, chunker: string, now: real): Db {
    db.(rows := db.rows[(project, version) := NewRow(project, version, model, chunker, now)])
  }

  function AfterCreate(db: Db, project: string, version: string, model: string, chunker: string, makeActive: bool, now: real): Db {
    var inserted := AfterInsert(db, project, version, model, chunker, now);
    if makeActive then AfterActivate(inserted, project, version) else inserted
  }

  predicate Expired(row: Row, now: real, gracePeriod: real) {
    !row.active && now - row.createdAt >= gracePeriod
  }

  function AfterDeleteExpired(db: Db, project: string, now: real, gracePeriod: real): Db {
    db.(rows := map k | k in db.rows && !(k.0 == project && Expired(db.rows[k], now, gracePeriod)) :: db.rows[k])
  }

  /** The same rows, with only `version` of the project active. */
  ghost predicate RowsActivated(
    rows: map<(string, string), Row>, after: map<(string, string), Row>, project: string, version: string)
  {
    && after.Keys == rows.Keys
    && (forall k :: k in rows && k.0 != project ==> after[k] == rows[k])
    && (forall k :: k in rows && k.0 == project ==>
          (after[k].active <==> k.1 == version) && after[k] == rows[k].(active := after[k].active))
  }

  // ---- the manager ----

  /** All versions of the project, youngest first. */
  ghost predicate IsListing(db: Db, project: string, versions: seq<string>) {
    && Distinct(versions)
    && (forall v :: v in versions <==> (project, v) in db.rows)
    && YoungestFirst(db, project, versions)
  }

  function CreatedAt(db: Db, project: string, version: string): real {
    if (project, version) in db.rows then db.rows[(project, version)].createdAt else 0.0
  }

  ghost predicate YoungestFirst(db: Db, project: string, versions: seq<string>) {
    forall i, j :: 0 <= i < j < |versions| ==> CreatedAt(db, project, versions[i]) >= CreatedAt(db, project, versions[j])
  }

  function ExpiredCollections(db: Db, project: string, versions: seq<string>, now: real, gracePeriod: real): seq<string> {
    if versions == [] then []
    else
      var last := (project, versions[|versions| - 1]);
      ExpiredCollections(db, project, versions[..|versions| - 1], now, gracePeriod)
      + if last in db.rows && Expired(db.rows[last], now, gracePeriod) then [db.rows[last].collectionName] else []
  }

  class VersionManager {
    const gracePeriod: real
    var db: Db
    /** The database after every transaction so far. */
    ghost var journal: seq<Db>

    ghost predicate Valid()
      reads this
    {
      && journal != [] && journal[|journal| - 1] == db
      && forall i :: 0 <= i < |journal| ==> AtMostOneActive(journal[i])
    }

    constructor (configs: map<string, string>, gracePeriod: real)
      ensures Valid() && db == Db(map[], configs) && this.gracePeriod == gracePeriod
    {
      this.gracePeriod := gracePeriod;
      db := Db(map[], configs);
      journal := [Db(map[], configs)];
    }

    /** One transaction. */
    method Commit(next: Db)
      requires Valid() && AtMostOneActive(next)
      modifies this
      ensures Valid() && db == next && journal == old(journal) + [next]
    {
      db := next;
      journal := journal + [next];
    }

    method ListVersions(project: string) returns (versions: seq<string>)
      ensures IsListing(db, project, versions)
    {
      versions := [];
      var todo := set k | k in db.rows && k.0 == project;
      while todo != {}
        invariant todo <= db.rows.Keys && forall k :: k in todo ==> k.0 == project
        invariant Distinct(versions)
        invariant forall v :: v in versions <==> (project, v) in db.rows && (project, v) !in todo
        invariant YoungestFirst(db, project, versions)
      {
        var k :| k in todo;
        var at := PlaceFor(project, versions, k.1);
        versions := Inserted(versions, at, k.1);
        todo := todo - {k};
      }
    }

    method PlaceFor(project: string, versions: seq<string>, version: string) returns (at: nat)
      requires YoungestFirst(db, project, versions)
      ensures at <= |versions| && YoungestFirst(db, project, Inserted(versions, at, version))
    {
      at := 0;
      while at < |versions| && CreatedAt(db, project, versions[at]) >= CreatedAt(db, project, version)
        invariant at <= |versions|
        invariant forall i :: 0 <= i < at ==> CreatedAt(db, project, versions[i]) >= CreatedAt(db, project, version)
      {
        at := at + 1;
      }
    }

    /** `activate_version`: deactivate all, activate one, then set the config; each is a transaction
        of its own, and after each of them at most one version is active. In the end exactly that
        version of the project is active, every other row and every other field is as before, and the
        config names the version if it accepts it. */
    method ActivateVersion(project: string, version: string) returns (outcome: Outcome)
      requires Valid()
      modifies this
      ensures Valid() && old(journal) <= journal
      ensures db == AfterActivate(old(db), project, version)
      ensures outcome == ActivateOutcome(old(db), project, version)
      ensures outcome == VersionNotFound <==> (project, version) !in old(db).rows
      ensures outcome == VersionNotFound ==> db == old(db)
      ensures outcome == InvalidVersion <==> (project, version) in old(db).rows && Text.AllSpace(version)
      ensures outcome == ProjectNotFound <==>
                (project, version) in old(db).rows && !Text.AllSpace(version) && project !in old(db).configs
      ensures outcome != VersionNotFound ==> RowsActivated(old(db).rows, db.rows, project, version)
      ensures db.configs == if outcome == Done then old(db).configs[project := version] else old(db).configs
    {
      TextLaws.BlankIsSpace(version);
      var versions := ListVersions(project);
      if version !in versions {
        return VersionNotFound;
      }
      ghost var before := db;
      for i := 0 to |versions|
        invariant Valid() && old(journal) <= journal && db == Db(Deactivated(before.rows, project, versions[..i]), before.configs)
      {
        PrefixStep(versions, i);
        DeactivatedStep(before, project, versions[..i], versions[i]);
        Commit(SetActive(db, project, versions[i], false));
      }
      assert versions[..|versions|] == versions;
      ActivatedRows(before, project, versions, version);
      Commit(SetActive(db, project, version, true));
      if Blank(version) {
        return InvalidVersion;
      }
      if project !in db.configs {
        return ProjectNotFound;
      }
      Commit(db.(configs := db.configs[project := version]));
      return Done;
    }

    /** `create_new_version`: a row for the version, with its collection and the time of creation; every
        other row and the configs stay, unless the version is to be made active. When that fails the row
        stays. */
    method CreateNewVersion(project: string, version: string, model: string, chunker: string, makeActive: bool, now: real)
      returns (outcome: Outcome)
      requires Valid()
      modifies this
      ensures Valid() && old(journal) <= journal
      ensures db == AfterCreate(old(db), project, version, model, chunker, makeActive, now)
      ensures outcome == if makeActive
                         then ActivateOutcome(AfterInsert(old(db), project, version, model, chunker, now), project, version)
                         else Done
      ensures (project, version) in db.rows
              && db.rows[(project, version)] == Row(model, chunker, "rag_" + project + "_" + version, now, makeActive)
      ensures !makeActive ==> db.rows - {(project, version)} == old(db).rows - {(project, version)} && db.configs == old(db).configs
      ensures makeActive ==> RowsActivated(old(db).rows[(project, version) := db.rows[(project, version)]], db.rows, project, version)
    {
      Commit(AfterInsert(db, project, version, model, chunker, now));
      if makeActive {
        outcome := ActivateVersion(project, version);
      } else {
        outcome := Done;
      }
    }

    method GetActiveVersion(project: string) returns (version: Option<string>)
      requires Valid()
      ensures version.Some? ==> (project, version.value) in db.rows && db.rows[(project, version.value)].active
      ensures version.None? ==> forall v :: (project, v) in db.rows ==> !db.rows[(project, v)].active
      ensures Consistent(db, project) ==> version == Some(db.configs[project])
    {
      var versions := ListVersions(project);
      for i := 0 to |versions|
        invariant forall j :: 0 <= j < i ==> !db.rows[(project, versions[j])].active
      {
        if db.rows[(project, versions[i])].active {
          return Some(versions[i]);
        }
      }
      return None;
    }

    /** `delete_expired_versions`: one transaction per deleted row. A row goes exactly if it is one of the
        project, is not active and was created at least the grace period ago; the others and the configs
        stay. The collections of exactly these rows are reported, youngest first: entry `i` is that of
        version `gone[i]`. */
    method DeleteExpiredVersions(project: string, now: real)
      returns (deleted: seq<string>, ghost listed: seq<string>, ghost gone: seq<string>)
      requires Valid()
      modifies this
      ensures Valid() && old(journal) <= journal
      ensures db == AfterDeleteExpired(old(db), project, now, gracePeriod)
      ensures IsListing(old(db), project, listed)
      ensures deleted == ExpiredCollections(old(db), project, listed, now, gracePeriod)
      ensures db.configs == old(db).configs
      ensures forall k :: k in db.rows ==> k in old(db).rows && db.rows[k] == old(db).rows[k]
      ensures forall k :: k in old(db).rows ==>
                (k !in db.rows <==> k.0 == project && !old(db).rows[k].active && now - old(db).rows[k].createdAt >= gracePeriod)
      ensures ReportsGone(old(db), db, project, deleted, gone)
    {
      var versions := ListVersions(project);
      listed := versions;
      ghost var before := db;
      var rows := db.rows;
      deleted := [];
      for i := 0 to |versions|
        invariant Valid() && old(journal) <= journal
        invariant db == Db(Swept(before.rows, project, versions[..i], now, gracePeriod), before.configs)
        invariant deleted == ExpiredCollections(before, project, versions[..i], now, gracePeriod)
      {
        PrefixStep(versions, i);
        assert versions[..i + 1][..i] == versions[..i];
        SweptStep(before, project, versions[..i], versions[i], now, gracePeriod);
        var row := rows[(project, versions[i])];
        if Expired(row, now, gracePeriod) {
          Commit(db.(rows := db.rows - {(project, versions[i])}));
          deleted := deleted + [row.collectionName];
        }
      }
      assert versions[..|versions|] == versions;
      gone := ExpiredAreGone(before, project, versions, now, gracePeriod);
    }
  }

  /** `gone` lists the versions whose rows are missing, each once, youngest first; `deleted` names their
      collections. */
  ghost predicate ReportsGone(before: Db, after: Db, project: string, deleted: seq<string>, gone: seq<string>) {
    && |deleted| == |gone| && Distinct(gone) && YoungestFirst(before, project, gone)
    && (forall v :: v in gone <==> (project, v) in before.rows && (project, v) !in after.rows)
    && forall i :: 0 <= i < |gone| ==>
         (project, gone[i]) in before.rows && deleted[i] == before.rows[(project, gone[i])].collectionName
  }

  /** `gone` lists the expired ones of the versions, each once, youngest first. */
  ghost predicate ListsExpired(db: Db, project: string, versions: seq<string>, now: real, gracePeriod: real, gone: seq<string>)
    requires forall v :: v in versions ==> (project, v) in db.rows
  {
    && Distinct(gone) && YoungestFirst(db, project, gone)
    && forall v :: v in gone <==> v in versions && Expired(db.rows[(project, v)], now, gracePeriod)
  }

  lemma ListsExpiredSnoc(db: Db, project: string, before: seq<string>, last: string, now: real, gracePeriod: real, gone: seq<string>)
    requires forall v :: v in before + [last] ==> (project, v) in db.rows
    requires Distinct(before + [last]) && YoungestFirst(db, project, before + [last])
    requires forall v :: v in before ==> v in before + [last]
    requires ListsExpired(db, project, before, now, gracePeriod, gone)
    ensures last in before + [last]
    ensures ListsExpired(db, project, before + [last], now, gracePeriod,
                         gone + if Expired(db.rows[(project, last)], now, gracePeriod) then [last] else [])
  {
    var all := before + [last];
    assert all[|before|] == last;
    forall i | 0 <= i < |gone|
      ensures gone[i] != last && CreatedAt(db, project, gone[i]) >= CreatedAt(db, project, last)
    {
      assert gone[i] in gone;
      var k :| 0 <= k < |before| && before[k] == gone[i];
      assert all[k] == gone[i];
    }
  }

  lemma {:induction false} ExpiredAreListed(db: Db, project: string, versions: seq<string>, now: real, gracePeriod: real)
    returns (gone: seq<string>)
    requires Distinct(versions) && YoungestFirst(db, project, versions)
    requires forall v :: v in versions ==> (project, v) in db.rows
    ensures ListsExpired(db, project, versions, now, gracePeriod, gone)
    ensures |gone| == |ExpiredCollections(db, project, versions, now, gracePeriod)|
    ensures forall i :: 0 <= i < |gone| ==>
              && (project, gone[i]) in db.rows
              && ExpiredCollections(db, project, versions, now, gracePeriod)[i] == db.rows[(project, gone[i])].collectionName
  {
    if versions == [] {
      gone := [];
    } else {
      var before, last := versions[..|versions| - 1], versions[|versions| - 1];
      assert versions == before + [last];
      var earlier := ExpiredAreListed(db, project, before, now, gracePeriod);
      ListsExpiredSnoc(db, project, before, last, now, gracePeriod, earlier);
      gone := earlier + if Expired(db.rows[(project, last)], now, gracePeriod) then [last] else [];
    }
  }

  lemma ExpiredAreGone(db: Db, project: string, versions: seq<string>, now: real, gracePeriod: real) returns (gone: seq<string>)
    requires IsListing(db, project, versions)
    ensures ReportsGone(db, AfterDeleteExpired(db, project, now, gracePeriod), project,
                        ExpiredCollections(db, project, versions, now, gracePeriod), gone)
  {
    gone := ExpiredAreListed(db, project, versions, now, gracePeriod);
  }

  function Inserted(s: seq<string>, at: nat, x: string): (t: seq<string>)
    requires at <= |s|
    ensures |t| == |s| + 1
    ensures forall i :: 0 <= i < |t| ==> t[i] == if i < at then s[i] else if i == at then x else s[i - 1]
    ensures forall y :: y in t <==> y in s || y == x
  {
    assert s == s[..at] + s[at..];
    s[..at] + [x] + s[at..]
  }

  /** `_set_active` */
  function SetActive(db: Db, project: string, version: string, active: bool): Db {
    var k := (project, version);
    if k in db.rows then db.(rows := db.rows[k := db.rows[k].(active := active)]) else db
  }

  ghost function Deactivated(rows: map<(string, string), Row>, project: string, versions: seq<string>): map<(string, string), Row> {
    map k | k in rows :: if k.0 == project && k.1 in versions then rows[k].(active := false) else rows[k]
  }

  lemma DeactivatedStep(before: Db, project: string, done: seq<string>, version: string)
    requires AtMostOneActive(before) && (project, version) in before.rows
    ensures var db := Db(Deactivated(before.rows, project, done), before.configs);
            && SetActive(db, project, version, false)
               == Db(Deactivated(before.rows, project, done + [version]), before.configs)
            && AtMostOneActive(SetActive(db, project, version, false))
  {
  }

  lemma ActivatedRows(before: Db, project: string, versions: seq<string>, version: string)
    requires AtMostOneActive(before) && IsListing(before, project, versions) && version in versions
    ensures var db := Db(Deactivated(before.rows, project, versions), before.configs);
            && SetActive(db, project, version, true) == Db(OnlyActive(before.rows, project, version), before.configs)
            && AtMostOneActive(SetActive(db, project, version, true))
  {
  }

  ghost function Swept(rows: map<(string, string), Row>, project: string, versions: seq<string>, now: real, gracePeriod: real)
    : map<(string, string), Row>
  {
    map k | k in rows && !(k.0 == project && k.1 in versions && Expired(rows[k], now, gracePeriod)) :: rows[k]
  }

  lemma SweptStep(before: Db, project: string, done: seq<string>, version: string, now: real, gracePeriod: real)
    requires AtMostOneActive(before) && (project, version) in before.rows
    ensures var rows := Swept(before.rows, project, done, now, gracePeriod);
            Swept(before.rows, project, done + [version], now, gracePeriod)
            == if Expired(before.rows[(project, version)], now, gracePeriod) then rows - {(project, version)} else rows
    ensures AtMostOneActive(Db(Swept(before.rows, project, done + [version], now, gracePeriod), before.configs))
  {
  }

  // ---- runs ----

  datatype Op =
    | Create(project: string, version: string, model: string, chunker: string, makeActive: bool, now: real)
    | Activate(project: string, version: string)
    | DeleteExpired(project: string, now: real)

  function Apply(db: Db, op: Op, gracePeriod: real): Db {
    match op
    case Create(p, v, model, chunker, makeActive, now) => AfterCreate(db, p, v, model, chunker, makeActive, now)
    case Activate(p, v) => AfterActivate(db, p, v)
    case DeleteExpired(p, now) => AfterDeleteExpired(db, p, now, gracePeriod)
  }

  /** An activation of an existing version makes the project consistent exactly when the config
      accepts the version or has it already. */
  lemma ActivationMakesConsistent(db: Db, project: string, version: string)
    requires (project, version) in db.rows
    ensures Consistent(AfterActivate(db, project, version), project)
       <==> ActivateOutcome(db, project, version) == Done || (project in db.configs && db.configs[project] == version)
  {
  }

  /** The operation activates a version that exists by then. */
  predicate Activates(db: Db, op: Op, project: string) {
    op.project == project
    && ((op.Create? && op.makeActive) || (op.Activate? && (project, op.version) in db.rows))
  }

  /** The two ways to lose consistency: to create the configured version again without activating
      it, and to activate a version whose name is blank and so is refused by the config. */
  predicate Breaks(db: Db, op: Op, project: string)
    requires project in db.configs
  {
    || (op.Create? && !op.makeActive && op.project == project && op.version == db.configs[project])
    || (Activates(db, op, project) && Blank(op.version) && op.version != db.configs[project])
  }

  /** An operation keeps the configured version the active one exactly when it is none of these. */
  lemma StaysConsistentIff(db: Db, op: Op, project: string, gracePeriod: real)
    requires AtMostOneActive(db) && Consistent(db, project)
    ensures Consistent(Apply(db, op, gracePeriod), project) <==> !Breaks(db, op, project)
  {
    match op
    case Create(p, v, model, chunker, makeActive, now) =>
      var inserted := AfterInsert(db, p, v, model, chunker, now);
      if makeActive && p == project {
        ActivationMakesConsistent(inserted, p, v);
      }
    case Activate(p, v) =>
      if (p, v) in db.rows && p == project {
        ActivationMakesConsistent(db, p, v);
      }
    case DeleteExpired(p, now) =>
  }

  /** The databases of a run that starts with an empty version table. */
  function Run(ops: seq<Op>, configs: map<string, string>, gracePeriod: real): Db {
    if ops == [] then Db(map[], configs)
    else Apply(Run(ops[..|ops| - 1], configs, gracePeriod), ops[|ops| - 1], gracePeriod)
  }

  lemma {:induction false} RunKeepsConfigs(ops: seq<Op>, configs: map<string, string>, gracePeriod: real)
    ensures Run(ops, configs, gracePeriod).configs.Keys == configs.Keys
    ensures AtMostOneActive(Run(ops, configs, gracePeriod))
  {
    if ops != [] {
      RunKeepsConfigs(ops[..|ops| - 1], configs, gracePeriod);
    }
  }

  /** After the first activation of the project, and as long as no operation breaks it, the
      configured version is the one active row of the project at every operation boundary;
      so no `DeleteExpired` removes it. */
  lemma {:induction false} ConfiguredVersionIsActive(
    ops: seq<Op>, first: nat, configs: map<string, string>, gracePeriod: real, project: string)
    requires first < |ops| && project in configs
    requires Activates(Run(ops[..first], configs, gracePeriod), ops[first], project) && !Blank(ops[first].version)
    requires forall i :: first < i < |ops| && project in Run(ops[..i], configs, gracePeriod).configs ==>
               !Breaks(Run(ops[..i], configs, gracePeriod), ops[i], project)
    ensures var db := Run(ops, configs, gracePeriod);
            Consistent(db, project)
            && forall v :: (project, v) in db.rows && db.rows[(project, v)].active <==> v == db.configs[project]
    decreases |ops|
  {
    var before := ops[..|ops| - 1];
    var db := Run(before, configs, gracePeriod);
    RunKeepsConfigs(before, configs, gracePeriod);
    RunKeepsConfigs(ops, configs, gracePeriod);
    if first == |ops| - 1 {
      var op := ops[first];
      if op.Create? {
        ActivationMakesConsistent(AfterInsert(db, project, op.version, op.model, op.chunker, op.now), project, op.version);
      } else {
        ActivationMakesConsistent(db, project, op.version);
      }
    } else {
      assert before[..first] == ops[..first] && before[first] == ops[first];
      forall i | first < i < |before| && project in Run(before[..i], configs, gracePeriod).configs
        ensures !Breaks(Run(before[..i], configs, gracePeriod), before[i], project)
      {
        assert before[..i] == ops[..i];
      }
      ConfiguredVersionIsActive(before, first, configs, gracePeriod, project);
      StaysConsistentIff(db, ops[|ops| - 1], project, gracePeriod);
    }
  }

  /** What the first way costs: created again without being activated, the configured version
      loses its active row, and once the grace period is over it is deleted. */
  lemma RecreatedVersionIsDeleted(
    db: Db, project: string, model: string, chunker: string, now: real, later: real, gracePeriod: real)
    requires Consistent(db, project) && later - now >= gracePeriod
    ensures var recreated := AfterCreate(db, project, db.configs[project], model, chunker, false, now);
            var swept := AfterDeleteExpired(recreated, project, later, gracePeriod);
            swept.configs[project] == db.configs[project] && (project, db.configs[project]) !in swept.rows
  {
  }

  /** The operation does not create the version again, and sweeps its project only within the grace period. */
  predicate Spares(op: Op, project: string, version: string, createdAt: real, gracePeriod: real) {
    && !(op.Create? && op.project == project && op.version == version)
    && (op.DeleteExpired? && op.project == project ==> op.now - createdAt < gracePeriod)
  }

  lemma SparedRowStays(db: Db, op: Op, project: string, version: string, createdAt: real, gracePeriod: real)
    requires (project, version) in db.rows && db.rows[(project, version)].createdAt == createdAt
    requires Spares(op, project, version, createdAt, gracePeriod)
    ensures (project, version) in Apply(db, op, gracePeriod).rows
    ensures var row := Apply(db, op, gracePeriod).rows[(project, version)];
            row == db.rows[(project, version)].(active := row.active)
  {
  }

  /** The grace period: in every run, a version that is created at `now` is still there, with its model and
      collection, after any further operations that do not create it again, as long as no sweep of the
      project runs at `now + gracePeriod` or later. */
  lemma {:induction false} NewVersionIsSpared(ops: seq<Op>, first: nat, configs: map<string, string>, gracePeriod: real)
    requires first < |ops| && ops[first].Create?
    requires forall i :: first < i < |ops| ==>
               Spares(ops[i], ops[first].project, ops[first].version, ops[first].now, gracePeriod)
    ensures var created, db := ops[first], Run(ops, configs, gracePeriod);
            && (created.project, created.version) in db.rows
            && var row := db.rows[(created.project, created.version)];
               row == Row(created.model, created.chunker, "rag_" + created.project + "_" + created.version, created.now, row.active)
    decreases |ops|
  {
    var before := ops[..|ops| - 1];
    var created := ops[first];
    if first < |ops| - 1 {
      assert before[first] == created;
      forall i | first < i < |before|
        ensures Spares(before[i], created.project, created.version, created.now, gracePeriod)
      {
        assert before[i] == ops[i];
      }
      NewVersionIsSpared(before, first, configs, gracePeriod);
      SparedRowStays(Run(before, configs, gracePeriod), ops[|ops| - 1], created.project, created.version, created.now, gracePeriod);
    }
  }
}
