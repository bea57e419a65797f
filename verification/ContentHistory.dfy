/** What every history of store calls keeps: the table invariants, pinned sources, and what a
    snapshot and its restore do to the files. */
module ContentHistory {
  import opened Wrappers
  import opened ContentStore

  datatype Call =
    | Upsert(project: int, name: string, content: string)
    | DeleteFile(project: int, name: string)
    | CreateVersion(project: int)
    | Restore(project: int, version: int, order: seq<VersionFile>)  // rows in the order they are read
    | Deploy(pin: Pin)
    | Schedule(pin: Pin)
    | RemoveDeployment(id: int)
    | RemoveTrigger(id: int)
    | DeleteProject(project: int)

  // Foreign keys of a new deployment or trigger.
  ghost predicate MayPin(db: Tables, pin: Pin) {
    pin.fileId in db.files && (pin.versionId.Some? ==> pin.versionId.value in db.versions)
  }

  function WithoutProject(pins: map<int, Pin>, files: map<int, File>, p: int): map<int, Pin> {
    map d | d in pins && pins[d].projectId != p && pins[d].fileId in files && files[pins[d].fileId].projectId != p :: pins[d]
  }

  // ON DELETE CASCADE from a project.
  function ProjectDeleted(db: Tables, p: int): Tables {
    var versions := map v | v in db.versions && db.versions[v].projectId != p :: db.versions[v];
    db.(files := (map i | i in db.files && db.files[i].projectId != p :: db.files[i]),
        versions := versions,
        versionFiles := (set r | r in db.versionFiles && r.versionId in versions),
        deployments := WithoutProject(db.deployments, db.files, p),
        triggers := WithoutProject(db.triggers, db.files, p))
  }

  // A version another project's row still refers to cannot be deleted, and the call fails.
  ghost predicate MayDeleteProject(db: Tables, p: int) {
    var after := ProjectDeleted(db, p);
    PinsHold(after.deployments, after) && PinsHold(after.triggers, after)
  }

  // Calls the constraints refuse change nothing.
  ghost function Step(db: Tables, c: Call): Tables
    requires Valid(db)
  {
    match c
    case Upsert(p, name, content) => Upserted(db, p, name, content)
    case DeleteFile(p, name) => FileDeleted(db, p, name)
    case CreateVersion(p) => VersionCreated(db, p)
    case Restore(p, v, order) => if multiset(order) == multiset(RowsOf(db.versionFiles, v)) then Restored(db, p, order) else db
    case Deploy(pin) =>
      if MayPin(db, pin) then db.(deployments := db.deployments[db.nextId := pin], nextId := db.nextId + 1) else db
    case Schedule(pin) =>
      if MayPin(db, pin) then db.(triggers := db.triggers[db.nextId := pin], nextId := db.nextId + 1) else db
    case RemoveDeployment(id) => db.(deployments := db.deployments - {id})
    case RemoveTrigger(id) => db.(triggers := db.triggers - {id})
    case DeleteProject(p) => if MayDeleteProject(db, p) then ProjectDeleted(db, p) else db
  }

  // ------------------------------------------------------------------ the invariant

  // What an upsert leaves alone.
  ghost predicate OnlyFilesGrow(db: Tables, db': Tables) {
    && db'.versions == db.versions && db'.versionFiles == db.versionFiles
    && db'.deployments == db.deployments && db'.triggers == db.triggers
    && db.nextId <= db'.nextId
    && (forall i <- db.files :: i in db'.files && db'.files[i].projectId == db.files[i].projectId && db'.files[i].name == db.files[i].name)
    && (forall i <- db'.files :: i !in db.files ==> i >= db.nextId)
  }

  lemma UpsertOnlyGrows(db: Tables, p: int, name: string, content: string)
    requires DistinctFiles(db.files) && (forall i <- db.files :: i < db.nextId)
    ensures OnlyFilesGrow(db, Upserted(db, p, name, content))
  {
    hide DistinctFiles, NextAfter;
  }

  lemma {:induction false} RestoreOnlyGrows(db: Tables, p: int, rows: seq<VersionFile>)
    requires DistinctFiles(db.files) && (forall i <- db.files :: i < db.nextId)
    ensures OnlyFilesGrow(db, Restored(db, p, rows))
    decreases |rows|
  {
    if rows != [] {
      hide Upserted, DistinctFiles;
      var n := |rows| - 1;
      RestoreOnlyGrows(db, p, rows[..n]);
      UpsertOnlyGrows(Restored(db, p, rows[..n]), p, rows[n].name, rows[n].content);
    }
  }

  lemma GrowingKeepsValid(db: Tables, db': Tables)
    requires Valid(db) && OnlyFilesGrow(db, db') && DistinctFiles(db'.files) && (forall i <- db'.files :: i < db'.nextId)
    ensures Valid(db')
  {
    assert forall v <- db.versions :: v < db'.nextId;
  }

  // A project's numbers have no gaps below any of them.
  lemma NoGaps(versions: map<int, Version>, w: int, m: int)
    requires NumberedFromOne(versions) && w in versions && 1 <= m <= versions[w].number
    ensures exists x :: x in versions && versions[x].projectId == versions[w].projectId && versions[x].number == m
  {
    assert m in NumbersOf(versions, versions[w].projectId);
  }

  lemma OneMoreNumber(prior: map<int, Version>, v: int, p: int, n: int)
    requires NumberedFromOne(prior) && v !in prior && n == NextAfter(NumbersOf(prior, p), 1)
    ensures NumberedFromOne(prior[v := Version(p, n)])
  {
    hide NextAfter;
    var versions, numbers := prior[v := Version(p, n)], NumbersOf(prior, p);
    assert forall w <- prior :: prior[w].projectId == p ==> prior[w].number in numbers;
    assert n >= 1 by {
      if numbers != {} {
        var u :| u in prior && prior[u].projectId == p && prior[u].number == n - 1;
      }
    }
    forall w, m: int | w in versions && 1 <= m <= versions[w].number
      ensures m in NumbersOf(versions, versions[w].projectId)
    {
      if w == v && m == n {
        assert versions[v].number == m;
      } else {
        var u := w;
        if w == v {
          u :| u in prior && prior[u].projectId == p && prior[u].number == n - 1;
        }
        NoGaps(prior, u, m);
        var x :| x in prior && prior[x].projectId == prior[u].projectId && prior[x].number == m;
        assert x in versions && versions[x] == prior[x];
      }
    }
  }

  lemma NumbersAfterCreate(db: Tables, p: int)
    requires Valid(db) && FilesOf(db.files, p) != {}
    ensures NumberedFromOne(VersionCreated(db, p).versions)
  {
    hide NumberedFromOne, DistinctFiles, DistinctSnapshots, PinsHold;
    OneMoreNumber(db.versions, db.nextId, p, NextAfter(NumbersOf(db.versions, p), 1));
  }

  lemma CreateKeepsValid(db: Tables, p: int)
    requires Valid(db)
    ensures Valid(VersionCreated(db, p))
  {
    if FilesOf(db.files, p) != {} {
      NumbersAfterCreate(db, p);
      var db' := VersionCreated(db, p);
      assert forall r <- SnapshotOf(db.files, p, db.nextId) :: r.versionId == db.nextId;
      assert forall r <- db.versionFiles :: r.versionId != db.nextId;
      forall r, s | r in db'.versionFiles && s in db'.versionFiles && r.versionId == s.versionId && r.name == s.name
        ensures r == s
      {
        if r.versionId == db.nextId {
          assert r in SnapshotOf(db.files, p, db.nextId) && s in SnapshotOf(db.files, p, db.nextId);
        }
      }
    }
  }

  lemma DeleteProjectKeepsValid(db: Tables, p: int)
    requires Valid(db) && MayDeleteProject(db, p)
    ensures Valid(ProjectDeleted(db, p))
  {
    var db' := ProjectDeleted(db, p);
    forall v, n: int | v in db'.versions && 1 <= n <= db'.versions[v].number
      ensures n in NumbersOf(db'.versions, db'.versions[v].projectId)
    {
      assert n in NumbersOf(db.versions, db.versions[v].projectId);
      var x :| x in db.versions && db.versions[x].projectId == db.versions[v].projectId && db.versions[x].number == n;
      assert x in db'.versions && db'.versions[x] == db.versions[x];
    }
  }

  lemma UpsertKeepsValid(db: Tables, p: int, name: string, content: string)
    requires Valid(db)
    ensures Valid(Upserted(db, p, name, content))
  {
    hide Upserted, OnlyFilesGrow, DistinctFiles;
    UpsertKeepsFilesDistinct(db, p, name, content);
    UpsertOnlyGrows(db, p, name, content);
    GrowingKeepsValid(db, Upserted(db, p, name, content));
  }

  lemma RestoreKeepsValid(db: Tables, p: int, rows: seq<VersionFile>)
    requires Valid(db)
    ensures Valid(Restored(db, p, rows))
  {
    hide Restored, OnlyFilesGrow, DistinctFiles;
    RestoreOnlyGrows(db, p, rows);
    GrowingKeepsValid(db, Restored(db, p, rows));
  }

  lemma DeleteFileKeepsValid(db: Tables, p: int, name: string)
    requires Valid(db)
    ensures Valid(FileDeleted(db, p, name))
  {
    hide NumberedFromOne, DistinctSnapshots;
  }

  // Deploying, scheduling and removing a row.
  lemma PinsKeepValid(db: Tables, c: Call)
    requires Valid(db) && (c.Deploy? || c.Schedule? || c.RemoveDeployment? || c.RemoveTrigger?)
    ensures Valid(Step(db, c))
  {
    hide NumberedFromOne, DistinctSnapshots, DistinctFiles;
  }

  /** Every call keeps every constraint: file names and positions distinct within a project,
      version numbers exactly 1..k, snapshots unambiguous, pins resolvable. */
  lemma StepKeepsValid(db: Tables, c: Call)
    requires Valid(db)
    ensures Valid(Step(db, c))
  {
    hide Valid, Upserted, Restored, VersionCreated, FileDeleted, ProjectDeleted, MayDeleteProject;
    match c
    case Upsert(p, name, content) =>
      UpsertKeepsValid(db, p, name, content);
    case DeleteFile(p, name) =>
      DeleteFileKeepsValid(db, p, name);
    case CreateVersion(p) =>
      CreateKeepsValid(db, p);
    case Restore(p, v, order) =>
      RestoreKeepsValid(db, p, order);
    case DeleteProject(p) =>
      if MayDeleteProject(db, p) {
        DeleteProjectKeepsValid(db, p);
      }
    case _ =>
      PinsKeepValid(db, c);
  }

  ghost function After(db: Tables, run: seq<Call>): (db': Tables)
    requires Valid(db)
    ensures Valid(db')
    decreases |run|
  {
    if run == [] then db
    else
      var n := |run| - 1;
      StepKeepsValid(After(db, run[..n]), run[n]);
      Step(After(db, run[..n]), run[n])
  }

  /** In every reachable store a project's version numbers are exactly 1 up to the last one given. */
  lemma NumbersHaveNoGaps(run: seq<Call>, p: int, n: int)
    ensures var numbers := NumbersOf(After(Empty, run).versions, p);
            n in numbers <==> 1 <= n < NextAfter(numbers, 1)
  {
    var versions := After(Empty, run).versions;
    var numbers := NumbersOf(versions, p);
    if numbers != {} {
      var last := NextAfter(numbers, 1) - 1;
      var v :| v in versions && versions[v].projectId == p && versions[v].number == last;
    }
  }

  // ------------------------------------------------------------------ pinned sources

  // While a row stays, the name of its file and the frozen contents it can see stay.
  ghost predicate SameFrozen(db: Tables, db': Tables, pin: Pin)
    requires DistinctSnapshots(db.versionFiles) && DistinctSnapshots(db'.versionFiles)
  {
    && pin.fileId in db.files && pin.fileId in db'.files
    && db.files[pin.fileId].name == db'.files[pin.fileId].name
    && pin.versionId.Some?
    && RowsOf(db.versionFiles, pin.versionId.value) == RowsOf(db'.versionFiles, pin.versionId.value)
  }

  ghost predicate PinnedIn(db: Tables, pin: Pin) {
    pin.fileId in db.files && pin.versionId.Some? && pin.versionId.value in db.versions
  }

  lemma StepKeepsFrozen(db: Tables, c: Call, pin: Pin)
    requires Valid(db) && PinnedIn(db, pin)
    requires PinnedIn(Step(db, c), pin)
    ensures Valid(Step(db, c)) && SameFrozen(db, Step(db, c), pin)
  {
    hide NumberedFromOne, DistinctFiles, Upserted, Restored, MayDeleteProject, PinsHold;
    StepKeepsValid(db, c);
    var v := pin.versionId.value;
    match c
    case Restore(p, w, order) =>
      RestoreOnlyGrows(db, p, order);
    case CreateVersion(p) =>
      assert forall r <- SnapshotOf(db.files, p, db.nextId) :: r.versionId == db.nextId != v;
    case DeleteProject(p) =>
      assert RowsOf(Step(db, c).versionFiles, v) == RowsOf(db.versionFiles, v);
    case Upsert(p, name, content) =>
      UpsertOnlyGrows(db, p, name, content);
    case DeleteFile(p, name) =>
    case Deploy(q) =>
    case Schedule(q) =>
    case RemoveDeployment(id) =>
    case RemoveTrigger(id) =>
  }

  lemma FrozenDependsOnRows(r1: set<VersionFile>, r2: set<VersionFile>, v: int, name: string)
    requires DistinctSnapshots(r1) && DistinctSnapshots(r2) && RowsOf(r1, v) == RowsOf(r2, v)
    ensures FrozenContent(r1, v, name) == FrozenContent(r2, v, name)
  {
    forall r | r in r1 && r.versionId == v
      ensures r in r2
    {
      assert r in RowsOf(r1, v);
    }
    forall r | r in r2 && r.versionId == v
      ensures r in r1
    {
      assert r in RowsOf(r2, v);
    }
  }

  ghost predicate SameSources(db: Tables, db': Tables, pin: Pin)
    requires Valid(db) && Valid(db')
  {
    DeploymentSource(db', pin) == DeploymentSource(db, pin) && TriggerSource(db', pin) == TriggerSource(db, pin)
  }

  // A row that is there before and after a run was there all along, unchanged.
  lemma DeploymentStays(db: Tables, c: Call, d: int)
    requires Valid(db) && d in Step(db, c).deployments && d < db.nextId
    ensures d in db.deployments && Step(db, c).deployments[d] == db.deployments[d]
  {
    hide NumberedFromOne, DistinctFiles, DistinctSnapshots, Upserted, Restored, MayDeleteProject;
    if c.Upsert? {
      UpsertOnlyGrows(db, c.project, c.name, c.content);
    } else if c.Restore? {
      RestoreOnlyGrows(db, c.project, c.order);
    }
  }

  lemma TriggerStays(db: Tables, c: Call, t: int)
    requires Valid(db) && t in Step(db, c).triggers && t < db.nextId
    ensures t in db.triggers && Step(db, c).triggers[t] == db.triggers[t]
  {
    hide NumberedFromOne, DistinctFiles, DistinctSnapshots, Upserted, Restored, MayDeleteProject;
    if c.Upsert? {
      UpsertOnlyGrows(db, c.project, c.name, c.content);
    } else if c.Restore? {
      RestoreOnlyGrows(db, c.project, c.order);
    }
  }

  lemma IdsOnlyGrow(db: Tables, c: Call)
    requires Valid(db)
    ensures db.nextId <= Step(db, c).nextId
  {
    hide NumberedFromOne, DistinctFiles, DistinctSnapshots, Upserted, Restored, MayDeleteProject;
    if c.Upsert? {
      UpsertOnlyGrows(db, c.project, c.name, c.content);
    } else if c.Restore? {
      RestoreOnlyGrows(db, c.project, c.order);
    }
  }

  lemma {:induction false} HistoryIdsGrow(db: Tables, run: seq<Call>)
    requires Valid(db)
    ensures db.nextId <= After(db, run).nextId
    decreases |run|
  {
    if run != [] {
      var n := |run| - 1;
      HistoryIdsGrow(db, run[..n]);
      IdsOnlyGrow(After(db, run[..n]), run[n]);
    }
  }

  lemma StepKeepsSources(db: Tables, c: Call, pin: Pin)
    requires Valid(db) && PinnedIn(db, pin) && PinnedIn(Step(db, c), pin)
    ensures Valid(Step(db, c)) && SameSources(db, Step(db, c), pin)
  {
    StepKeepsFrozen(db, c, pin);
    FrozenDependsOnRows(db.versionFiles, Step(db, c).versionFiles, pin.versionId.value, db.files[pin.fileId].name);
  }

  /** Once a deployment is pinned to a version, the source it resolves to never changes under any
      later calls while its row exists. */
  lemma {:induction false} PinnedDeploymentIsStable(db: Tables, run: seq<Call>, d: int)
    requires Valid(db) && d in db.deployments && db.deployments[d].versionId.Some?
    requires d in After(db, run).deployments
    ensures After(db, run).deployments[d] == db.deployments[d]
    ensures SameSources(db, After(db, run), db.deployments[d])
    decreases |run|
  {
    hide Step, DeploymentSource, TriggerSource, NumberedFromOne, DistinctFiles, DistinctSnapshots;
    if run != [] {
      var n := |run| - 1;
      var before := After(db, run[..n]);
      HistoryIdsGrow(db, run[..n]);
      DeploymentStays(before, run[n], d);
      PinnedDeploymentIsStable(db, run[..n], d);
      StepKeepsSources(before, run[n], db.deployments[d]);
    }
  }

  /** The same for a trigger pinned to a version. */
  lemma {:induction false} PinnedTriggerIsStable(db: Tables, run: seq<Call>, t: int)
    requires Valid(db) && t in db.triggers && db.triggers[t].versionId.Some?
    requires t in After(db, run).triggers
    ensures After(db, run).triggers[t] == db.triggers[t]
    ensures SameSources(db, After(db, run), db.triggers[t])
    decreases |run|
  {
    hide Step, DeploymentSource, TriggerSource, NumberedFromOne, DistinctFiles, DistinctSnapshots;
    if run != [] {
      var n := |run| - 1;
      var before := After(db, run[..n]);
      HistoryIdsGrow(db, run[..n]);
      TriggerStays(before, run[n], t);
      PinnedTriggerIsStable(db, run[..n], t);
      StepKeepsSources(before, run[n], db.triggers[t]);
    }
  }

  /** The deployment lookup goes by file id and the scheduler's by project and name; they answer
      the same for every row whose file is in its project. */
  lemma BothLookupsAgree(db: Tables, pin: Pin)
    requires Valid(db)
    requires pin.fileId in db.files ==> db.files[pin.fileId].projectId == pin.projectId
    ensures DeploymentSource(db, pin) == TriggerSource(db, pin)
  {
    if pin.fileId in db.files {
      assert HasFile(db.files, pin.projectId, db.files[pin.fileId].name);
    }
  }

  // ------------------------------------------------------------------ snapshot and restore

  lemma ContentFound(db: Tables, i: int)
    requires DistinctFiles(db.files) && i in db.files
    ensures ContentOf(db, db.files[i].projectId, db.files[i].name) == Some(db.files[i].content)
  {
    assert HasFile(db.files, db.files[i].projectId, db.files[i].name);
  }

  lemma UpsertWrites(db: Tables, p: int, name: string, content: string, q: int, other: string)
    requires DistinctFiles(db.files) && (forall i <- db.files :: i < db.nextId)
    ensures var db' := Upserted(db, p, name, content);
            && DistinctFiles(db'.files)
            && ContentOf(db', q, other) == if q == p && other == name then Some(content) else ContentOf(db, q, other)
  {
    hide DistinctFiles, NextAfter, PositionsOf;
    UpsertKeepsFilesDistinct(db, p, name, content);
    var db' := Upserted(db, p, name, content);
    if q == p && other == name {
      ContentFound(db', match FileId(db.files, p, name) case Some(i) => i case None => db.nextId);
    } else if FileId(db.files, q, other).Some? {
      var i := FileId(db.files, q, other).value;
      ContentFound(db, i);
      ContentFound(db', i);
    } else {
      assert !HasFile(db'.files, q, other);
    }
  }

  /** An upsert of an existing file changes that row's content and nothing else. */
  lemma UpsertKeepsPlace(db: Tables, p: int, name: string, content: string)
    requires Valid(db) && HasFile(db.files, p, name)
    ensures var after := Upserted(db, p, name, content);
            && after.files.Keys == db.files.Keys
            && forall i <- db.files ::
                 after.files[i] == if db.files[i].projectId == p && db.files[i].name == name
                                   then File(p, name, content, db.files[i].position) else db.files[i]
  {
    hide NumberedFromOne, DistinctSnapshots, PinsHold, NextAfter;
  }

  // A position right behind the last one of the project, or 0 in an empty project.
  ghost predicate RightBehind(files: map<int, File>, p: int, position: int) {
    && (forall i <- files :: files[i].projectId == p ==> files[i].position < position)
    && (if exists i <- files :: files[i].projectId == p
        then exists i <- files :: files[i].projectId == p && files[i].position == position - 1
        else position == 0)
  }

  lemma NextIsRightBehind(files: map<int, File>, p: int)
    ensures RightBehind(files, p, NextAfter(PositionsOf(files, p), 0))
  {
    hide NextAfter;
    var taken := PositionsOf(files, p);
    assert forall i <- files :: files[i].projectId == p ==> files[i].position in taken;
    if taken != {} {
      var last := NextAfter(taken, 0) - 1;
      var i :| i in files && files[i].projectId == p && files[i].position == last;
    }
  }

  /** An upsert of a new file adds one row, right behind the project's last, and changes no other. */
  lemma UpsertAppends(db: Tables, p: int, name: string, content: string)
    requires Valid(db) && !HasFile(db.files, p, name)
    ensures var after := Upserted(db, p, name, content);
            && db.nextId !in db.files
            && exists position :: RightBehind(db.files, p, position) && after.files == db.files[db.nextId := File(p, name, content, position)]
  {
    hide NumberedFromOne, DistinctSnapshots, PinsHold, NextAfter, PositionsOf, RightBehind, HasFile;
    NextIsRightBehind(db.files, p);
  }

  /** Deleting a file takes that file and no other, and with it the deployments and triggers that run it. */
  lemma DeleteIsExact(db: Tables, p: int, name: string, q: int, other: string)
    requires Valid(db)
    ensures var after := FileDeleted(db, p, name);
            && Valid(after)
            && ContentOf(after, q, other) == (if q == p && other == name then None else ContentOf(db, q, other))
            && after.versions == db.versions && after.versionFiles == db.versionFiles
    ensures var after := FileDeleted(db, p, name);
            && (forall d :: d in after.deployments <==>
                  d in db.deployments && !(var f := db.files[db.deployments[d].fileId]; f.projectId == p && f.name == name))
            && (forall t :: t in after.triggers <==>
                  t in db.triggers && !(var f := db.files[db.triggers[t].fileId]; f.projectId == p && f.name == name))
            && (forall d <- after.deployments :: after.deployments[d] == db.deployments[d])
            && (forall t <- after.triggers :: after.triggers[t] == db.triggers[t])
  {
    hide NumberedFromOne, DistinctSnapshots;
    DeleteFileKeepsValid(db, p, name);
    DeletedContent(db, p, name, q, other);
  }

  lemma DeletedContent(db: Tables, p: int, name: string, q: int, other: string)
    requires DistinctFiles(db.files) && DistinctFiles(FileDeleted(db, p, name).files)
    ensures ContentOf(FileDeleted(db, p, name), q, other) == if q == p && other == name then None else ContentOf(db, q, other)
  {
    hide DistinctFiles;
    var after := FileDeleted(db, p, name);
    if q == p && other == name {
      assert !HasFile(after.files, p, name);
    } else if FileId(db.files, q, other).Some? {
      var i := FileId(db.files, q, other).value;
      ContentFound(db, i);
      ContentFound(after, i);
    } else {
      assert !HasFile(after.files, q, other);
    }
  }

  // What upserting rows one after the other leaves under a name.
  ghost predicate Writes(before: Option<string>, rows: seq<VersionFile>, name: string, after: Option<string>) {
    && (forall r <- rows :: r.name == name ==> after == Some(r.content))
    && ((forall r <- rows :: r.name != name) ==> after == before)
  }

  lemma WriteOneMore(before: Option<string>, rows: seq<VersionFile>, name: string, middle: Option<string>, after: Option<string>)
    requires rows != [] && Writes(before, rows[..|rows| - 1], name, middle)
    requires forall r <- rows :: r.name == rows[|rows| - 1].name ==> r == rows[|rows| - 1]
    requires var last := rows[|rows| - 1]; after == if last.name == name then Some(last.content) else middle
    ensures Writes(before, rows, name, after)
  {
    var n := |rows| - 1;
    assert rows == rows[..n] + [rows[n]];
    assert rows[n] in rows;
  }

  lemma WriteNothing(content: Option<string>, name: string)
    ensures Writes(content, [], name, content)
  {}

  lemma {:induction false} RestoreWrites(db: Tables, p: int, rows: seq<VersionFile>, q: int, name: string)
    requires DistinctFiles(db.files) && (forall i <- db.files :: i < db.nextId)
    requires forall r, s :: r in rows && s in rows && r.name == s.name ==> r == s
    ensures q == p ==> Writes(ContentOf(db, q, name), rows, name, ContentOf(Restored(db, p, rows), q, name))
    ensures q != p ==> ContentOf(Restored(db, p, rows), q, name) == ContentOf(db, q, name)
    decreases |rows|
  {
    hide ContentOf, Upserted, DistinctFiles, Writes;
    if rows == [] {
      WriteNothing(ContentOf(db, q, name), name);
    } else {
      var n := |rows| - 1;
      var before := Restored(db, p, rows[..n]);
      RestoreWrites(db, p, rows[..n], q, name);
      UpsertWrites(before, p, rows[n].name, rows[n].content, q, name);
      assert rows[n] in rows;
      if q == p {
        WriteOneMore(ContentOf(db, q, name), rows, name, ContentOf(before, q, name), ContentOf(Restored(db, p, rows), q, name));
      }
    }
  }

  /** A restore gives every file of the version its frozen content and leaves every other file alone. */
  lemma RestoreIsExact(db: Tables, p: int, v: int, order: seq<VersionFile>, q: int, name: string)
    requires Valid(db) && multiset(order) == multiset(RowsOf(db.versionFiles, v))
    ensures ContentOf(Restored(db, p, order), q, name)
         == if q == p && FrozenContent(db.versionFiles, v, name).Some? then FrozenContent(db.versionFiles, v, name)
            else ContentOf(db, q, name)
  {
    var rows := RowsOf(db.versionFiles, v);
    forall r: VersionFile
      ensures r in order <==> r in rows
    {
      assert r in multiset(order) <==> r in multiset(rows);
    }
    RestoreWrites(db, p, order, q, name);
    var frozen := FrozenContent(db.versionFiles, v, name);
    if frozen.Some? {
      var r := VersionFile(v, name, frozen.value);
      assert r in rows && r in order;
    }
  }

  lemma {:induction false} VersionStaysFrozen(db: Tables, run: seq<Call>, v: int, name: string)
    requires Valid(db) && v in db.versions && v in After(db, run).versions
    ensures FrozenContent(After(db, run).versionFiles, v, name) == FrozenContent(db.versionFiles, v, name)
    decreases |run|
  {
    if run != [] {
      var n := |run| - 1;
      var before, c := After(db, run[..n]), run[n];
      HistoryIdsGrow(db, run[..n]);
      VersionWasThere(before, c, v);
      VersionStaysFrozen(db, run[..n], v, name);
      FrozenDependsOnRows(before.versionFiles, Step(before, c).versionFiles, v, name);
    }
  }

  lemma VersionWasThere(db: Tables, c: Call, v: int)
    requires Valid(db) && v < db.nextId && v in Step(db, c).versions
    ensures v in db.versions && RowsOf(Step(db, c).versionFiles, v) == RowsOf(db.versionFiles, v)
  {
    hide NumberedFromOne, DistinctFiles, DistinctSnapshots, Upserted, Restored, MayDeleteProject;
    if c.Upsert? {
      UpsertOnlyGrows(db, c.project, c.name, c.content);
    } else if c.Restore? {
      RestoreOnlyGrows(db, c.project, c.order);
    } else if c.CreateVersion? {
      assert forall r <- SnapshotOf(db.files, c.project, db.nextId) :: r.versionId == db.nextId;
    }
  }

  /** What is pinned runs as it was: a row pinned to a version runs, after any calls that leave its
      file and the version, the content its file had when the version was taken. */
  lemma PinnedRunsTheSnapshot(db: Tables, i: int, run: seq<Call>)
    requires Valid(db) && i in db.files
    requires var after := After(db, [CreateVersion(db.files[i].projectId)] + run);
             i in after.files && db.nextId in after.versions
    ensures var after, pin := After(db, [CreateVersion(db.files[i].projectId)] + run), Pin(db.files[i].projectId, i, Some(db.nextId));
            && DeploymentSource(after, pin) == Some(db.files[i].content)
            && TriggerSource(after, pin) == Some(db.files[i].content)
  {
    hide Step, VersionCreated, ContentOf, NumberedFromOne, DistinctFiles, DistinctSnapshots, PinsHold;
    var p, v := db.files[i].projectId, db.nextId;
    assert i in FilesOf(db.files, p);
    VersionIsTaken(db, p);
    RunsConcatenate(db, CreateVersion(p), run);
    var taken := VersionCreated(db, p);
    var after := After(taken, run);
    VersionStaysFrozen(taken, run, v, db.files[i].name);
    SnapshotHoldsContent(db, p, db.files[i].name);
    ContentFound(db, i);
    FilesStayInSnapshot(db, p);
    NamesStay(taken, run, i);
  }

  lemma FilesStayInSnapshot(db: Tables, p: int)
    ensures VersionCreated(db, p).files == db.files
  {}

  lemma NameStays(db: Tables, c: Call, i: int)
    requires Valid(db) && i in Step(db, c).files && i < db.nextId
    ensures i in db.files && Step(db, c).files[i].name == db.files[i].name
  {
    hide NumberedFromOne, DistinctFiles, DistinctSnapshots, Upserted, Restored, MayDeleteProject;
    if c.Upsert? {
      UpsertOnlyGrows(db, c.project, c.name, c.content);
    } else if c.Restore? {
      RestoreOnlyGrows(db, c.project, c.order);
    }
  }

  lemma {:induction false} NamesStay(db: Tables, run: seq<Call>, i: int)
    requires Valid(db) && i in db.files && i in After(db, run).files
    ensures After(db, run).files[i].name == db.files[i].name
    decreases |run|
  {
    hide Step, NumberedFromOne, DistinctFiles, DistinctSnapshots;
    if run != [] {
      var n := |run| - 1;
      HistoryIdsGrow(db, run[..n]);
      NameStays(After(db, run[..n]), run[n], i);
      NamesStay(db, run[..n], i);
    }
  }

  /** What is not pinned follows the edits: it runs what was last written to its file. */
  lemma LiveRunsTheLatest(db: Tables, p: int, name: string, content: string, i: int)
    requires Valid(db) && i in db.files && db.files[i].projectId == p && db.files[i].name == name
    ensures var after, pin := Upserted(db, p, name, content), Pin(p, i, None);
            && Valid(after)
            && DeploymentSource(after, pin) == Some(content) == TriggerSource(after, pin)
  {
    hide NumberedFromOne, DistinctSnapshots, NextAfter;
    UpsertKeepsValid(db, p, name, content);
    assert HasFile(db.files, p, name);
    ContentFound(Upserted(db, p, name, content), i);
  }

  lemma VersionIsTaken(db: Tables, p: int)
    requires Valid(db) && FilesOf(db.files, p) != {}
    ensures Valid(VersionCreated(db, p)) && Step(db, CreateVersion(p)) == VersionCreated(db, p)
    ensures db.nextId in VersionCreated(db, p).versions
  {
    hide Valid;
    CreateKeepsValid(db, p);
  }

  /** Snapshot a project, let any calls happen that leave the version, and restore it: every file of
      the snapshot has the content it had, and every other file the one it had before the restore. */
  lemma SnapshotThenRestore(db: Tables, p: int, run: seq<Call>, order: seq<VersionFile>, q: int, name: string)
    requires Valid(db) && FilesOf(db.files, p) != {}
    requires var v := db.nextId;
             var edited := After(db, [CreateVersion(p)] + run);
             v in edited.versions && multiset(order) == multiset(RowsOf(edited.versionFiles, v))
    ensures var edited := After(db, [CreateVersion(p)] + run);
            ContentOf(Restored(edited, p, order), q, name)
              == if q == p && ContentOf(db, p, name).Some? then ContentOf(db, p, name) else ContentOf(edited, q, name)
  {
    hide Step, VersionCreated, Restored, RowsOf, ContentOf, NumberedFromOne, DistinctFiles, DistinctSnapshots, PinsHold;
    var v, taken := db.nextId, VersionCreated(db, p);
    VersionIsTaken(db, p);
    RunsConcatenate(db, CreateVersion(p), run);
    var edited := After(taken, run);
    RestoreIsExact(edited, p, v, order, q, name);
    VersionStaysFrozen(taken, run, v, name);
    SnapshotHoldsContent(db, p, name);
  }

  lemma SnapshotHoldsContent(db: Tables, p: int, name: string)
    requires Valid(db) && FilesOf(db.files, p) != {} && Valid(VersionCreated(db, p))
    ensures FrozenContent(VersionCreated(db, p).versionFiles, db.nextId, name) == ContentOf(db, p, name)
  {
    var v, rows := db.nextId, VersionCreated(db, p).versionFiles;
    match FileId(db.files, p, name)
    case Some(i) =>
      assert i in FilesOf(db.files, p);
      assert VersionFile(v, name, db.files[i].content) in SnapshotOf(db.files, p, v);
    case None =>
      forall r | r in rows && r.versionId == v
        ensures r.name != name
      {
        assert r in SnapshotOf(db.files, p, v);
        var i :| i in FilesOf(db.files, p) && r == VersionFile(v, db.files[i].name, db.files[i].content);
      }
  }

  lemma {:induction false} RunsConcatenate(db: Tables, c: Call, run: seq<Call>)
    requires Valid(db) && Valid(Step(db, c))
    ensures After(db, [c] + run) == After(Step(db, c), run)
    decreases |run|
  {
    hide Step, Valid;
    var all := [c] + run;
    if run == [] {
      assert all[..0] == [] && all == [c];
    } else {
      assert all[..|all| - 1] == [c] + run[..|run| - 1];
      RunsConcatenate(db, c, run[..|run| - 1]);
    }
  }
}
