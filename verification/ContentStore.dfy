/** Files, versions, deployments and triggers of server/internal/store/workspaces_content.go,
    with the constraints of server/internal/db/migrations/0001_workspaces_users.sql. Each call
    is one atomic step; ids come from counters and are never reused. */
module ContentStore {
  import opened Wrappers

  datatype File = File(projectId: int, name: string, content: string, position: int)

  datatype Version = Version(projectId: int, number: int)

  datatype VersionFile = VersionFile(versionId: int, name: string, content: string)

  // A deployment or trigger row: the file it runs, and the version it is pinned to, if any.
  datatype Pin = Pin(projectId: int, fileId: int, versionId: Option<int>)

  datatype Tables = Tables(
    files: map<int, File>,
    versions: map<int, Version>,
    versionFiles: set<VersionFile>,
    deployments: map<int, Pin>,
    triggers: map<int, Pin>,
    nextId: int)

  const Empty := Tables(map[], map[], {}, map[], map[], 1)

  // ------------------------------------------------------------------ constraints

  // UNIQUE(project_id, name), and positions distinct within a project.
  ghost predicate DistinctFiles(files: map<int, File>) {
    forall i, j :: i in files && j in files && i != j && files[i].projectId == files[j].projectId ==>
      files[i].name != files[j].name && files[i].position != files[j].position
  }

  ghost predicate DistinctSnapshots(rows: set<VersionFile>) {
    forall r, s :: r in rows && s in rows && r.versionId == s.versionId && r.name == s.name ==> r == s
  }

  function NumbersOf(versions: map<int, Version>, p: int): set<int> {
    set v | v in versions && versions[v].projectId == p :: versions[v].number
  }

  // A project's version numbers are exactly 1..k, each used once.
  ghost predicate NumberedFromOne(versions: map<int, Version>) {
    && (forall v, w :: v in versions && w in versions && v != w && versions[v].projectId == versions[w].projectId ==>
          versions[v].number != versions[w].number)
    && (forall v, n: int :: v in versions && 1 <= n <= versions[v].number ==> n in NumbersOf(versions, versions[v].projectId))
    && (forall v <- versions :: versions[v].number >= 1)
  }

  ghost predicate PinsHold(pins: map<int, Pin>, db: Tables) {
    forall d <- pins ::
      && pins[d].fileId in db.files
      && (pins[d].versionId.Some? ==> pins[d].versionId.value in db.versions)
  }

  ghost predicate IdsAreOld(db: Tables) {
    && (forall i <- db.files :: i < db.nextId)
    && (forall v <- db.versions :: v < db.nextId)
    && (forall d <- db.deployments :: d < db.nextId)
    && (forall t <- db.triggers :: t < db.nextId)
  }

  ghost predicate Valid(db: Tables) {
    && DistinctFiles(db.files)
    && DistinctSnapshots(db.versionFiles)
    && (forall r <- db.versionFiles :: r.versionId in db.versions)
    && NumberedFromOne(db.versions)
    && PinsHold(db.deployments, db)
    && PinsHold(db.triggers, db)
    && IdsAreOld(db)
  }

  // ------------------------------------------------------------------ queries

  lemma {:induction false} GreatestExists(s: set<int>)
    requires s != {}
    ensures exists m :: m in s && forall x <- s :: x <= m
  {
    SomeElement(s);
    var x :| x in s;
    if s == {x} {
      assert forall y <- s :: y <= x;
    } else {
      var rest := s - {x};
      assert rest != {} by {
        assert s == {x} + rest;
      }
      GreatestExists(rest);
      var m :| m in rest && forall y <- rest :: y <= m;
      var top := if x <= m then m else x;
      assert top in s && forall y <- s :: y <= top by {
        forall y | y in s
          ensures y <= top
        {
          assert y == x || y in rest;
        }
      }
    }
  }

  // COALESCE(MAX(...) + 1, start)
  function NextAfter(s: set<int>, start: int): (n: int)
    ensures n !in s
    ensures s == {} ==> n == start
    ensures s != {} ==> n - 1 in s && forall x <- s :: x < n
  {
    if s == {} then start
    else
      GreatestExists(s);
      var m :| m in s && forall x <- s :: x <= m;
      m + 1
  }

  ghost predicate HasFile(files: map<int, File>, p: int, name: string) {
    exists i :: i in files && files[i].projectId == p && files[i].name == name
  }

  // SELECT ... WHERE project_id = $1 AND name = $2
  function FileId(files: map<int, File>, p: int, name: string): (id: Option<int>)
    requires DistinctFiles(files)
    ensures id.Some? <==> HasFile(files, p, name)
    ensures id.Some? ==> id.value in files && files[id.value].projectId == p && files[id.value].name == name
  {
    if exists i :: i in files && files[i].projectId == p && files[i].name == name then
      var i :| i in files && files[i].projectId == p && files[i].name == name;
      Some(i)
    else None
  }

  function ContentOf(db: Tables, p: int, name: string): Option<string>
    requires DistinctFiles(db.files)
  {
    match FileId(db.files, p, name) case Some(i) => Some(db.files[i].content) case None => None
  }

  // GetWSVersionFileContent
  function FrozenContent(rows: set<VersionFile>, versionId: int, name: string): (c: Option<string>)
    requires DistinctSnapshots(rows)
    ensures c.Some? ==> VersionFile(versionId, name, c.value) in rows
    ensures forall r <- rows :: r.versionId == versionId && r.name == name ==> c == Some(r.content)
  {
    if exists r :: r in rows && r.versionId == versionId && r.name == name then
      var r :| r in rows && r.versionId == versionId && r.name == name;
      Some(r.content)
    else None
  }

  // resolveDeploymentSource: the file by id, then the pinned version's content under its name.
  function DeploymentSource(db: Tables, pin: Pin): Option<string>
    requires DistinctSnapshots(db.versionFiles)
  {
    if pin.fileId !in db.files then None
    else
      match pin.versionId
      case None => Some(db.files[pin.fileId].content)
      case Some(v) => FrozenContent(db.versionFiles, v, db.files[pin.fileId].name)
  }

  // resolveSource of the scheduler: the file's name comes with the trigger row, live content is
  // looked up by project and name.
  function TriggerSource(db: Tables, pin: Pin): Option<string>
    requires DistinctFiles(db.files) && DistinctSnapshots(db.versionFiles)
  {
    if pin.fileId !in db.files then None
    else
      var name := db.files[pin.fileId].name;
      match pin.versionId
      case Some(v) => FrozenContent(db.versionFiles, v, name)
      case None => ContentOf(db, pin.projectId, name)
  }

  // ------------------------------------------------------------------ commands

  function PositionsOf(files: map<int, File>, p: int): set<int> {
    set i | i in files && files[i].projectId == p :: files[i].position
  }

  function Upserted(db: Tables, p: int, name: string, content: string): Tables
    requires DistinctFiles(db.files)
  {
    match FileId(db.files, p, name)
    case Some(i) => db.(files := db.files[i := db.files[i].(content := content)])
    case None =>
      db.(files := db.files[db.nextId := File(p, name, content, NextAfter(PositionsOf(db.files, p), 0))], nextId := db.nextId + 1)
  }

  function WithoutFiles(pins: map<int, Pin>, gone: set<int>): map<int, Pin> {
    map d | d in pins && pins[d].fileId !in gone :: pins[d]
  }

  // Deleting a file takes its deployments and triggers with it.
  function FileDeleted(db: Tables, p: int, name: string): Tables {
    var gone := set i | i in db.files && db.files[i].projectId == p && db.files[i].name == name;
    db.(files := db.files - gone, deployments := WithoutFiles(db.deployments, gone), triggers := WithoutFiles(db.triggers, gone))
  }

  function FilesOf(files: map<int, File>, p: int): set<int> {
    set i | i in files && files[i].projectId == p
  }

  function SnapshotOf(files: map<int, File>, p: int, v: int): set<VersionFile> {
    set i | i in FilesOf(files, p) :: VersionFile(v, files[i].name, files[i].content)
  }

  // A snapshot of a project without files is refused.
  function VersionCreated(db: Tables, p: int): Tables {
    if FilesOf(db.files, p) == {} then db
    else
      db.(versions := db.versions[db.nextId := Version(p, NextAfter(NumbersOf(db.versions, p), 1))],
          versionFiles := db.versionFiles + SnapshotOf(db.files, p, db.nextId),
          nextId := db.nextId + 1)
  }

  function RowsOf(rows: set<VersionFile>, v: int): set<VersionFile> {
    set r | r in rows && r.versionId == v
  }

  lemma UpsertKeepsFilesDistinct(db: Tables, p: int, name: string, content: string)
    requires DistinctFiles(db.files) && (forall i <- db.files :: i < db.nextId)
    ensures var db' := Upserted(db, p, name, content);
            DistinctFiles(db'.files) && (forall i <- db'.files :: i < db'.nextId)
  {
    if FileId(db.files, p, name).None? {
      assert forall i <- db.files :: db.files[i].projectId == p ==> db.files[i].position in PositionsOf(db.files, p);
    }
  }

  // Upserting one snapshot row after the other.
  function Restored(db: Tables, p: int, rows: seq<VersionFile>): (db': Tables)
    requires DistinctFiles(db.files) && (forall i <- db.files :: i < db.nextId)
    ensures DistinctFiles(db'.files) && (forall i <- db'.files :: i < db'.nextId)
    decreases |rows|
  {
    if rows == [] then db
    else
      var n := |rows| - 1;
      var before := Restored(db, p, rows[..n]);
      UpsertKeepsFilesDistinct(before, p, rows[n].name, rows[n].content);
      Upserted(before, p, rows[n].name, rows[n].content)
  }

  lemma RestoredNothing(db: Tables, p: int)
    requires DistinctFiles(db.files) && (forall i <- db.files :: i < db.nextId)
    ensures Restored(db, p, []) == db
  {}

  lemma RestoredOneMore(db: Tables, p: int, rows: seq<VersionFile>, r: VersionFile)
    requires DistinctFiles(db.files) && (forall i <- db.files :: i < db.nextId)
    ensures Restored(db, p, rows + [r]) == Upserted(Restored(db, p, rows), p, r.name, r.content)
  {
    hide Upserted;
    assert (rows + [r])[..|rows|] == rows;
  }

  class Store {
    var db: Tables

    constructor ()
      ensures db == Empty
    {
      db := Empty;
    }

    method UpsertWSFile(p: int, name: string, content: string)
      requires DistinctFiles(db.files)
      modifies this
      ensures db == Upserted(old(db), p, name, content)
    {
      var existing := FileId(db.files, p, name);
      if existing.Some? {
        var f := db.files[existing.value];
        db := db.(files := db.files[existing.value := f.(content := content)]);
        return;
      }
      var nextPos := NextAfter(PositionsOf(db.files, p), 0);
      db := db.(files := db.files[db.nextId := File(p, name, content, nextPos)], nextId := db.nextId + 1);
    }

    method DeleteWSFile(p: int, name: string)
      modifies this
      ensures db == FileDeleted(old(db), p, name)
    {
      var gone := set i | i in db.files && db.files[i].projectId == p && db.files[i].name == name;
      db := db.(files := db.files - gone);
      db := db.(deployments := WithoutFiles(db.deployments, gone), triggers := WithoutFiles(db.triggers, gone));
    }

    method CreateWSVersion(p: int) returns (ok: bool)
      modifies this
      ensures db == VersionCreated(old(db), p)
      ensures ok <==> FilesOf(old(db).files, p) != {}
    {
      var files := FilesOf(db.files, p);
      if files == {} {
        return false;
      }
      var v := db.nextId;
      var before := db.versionFiles;
      db := db.(versions := db.versions[v := Version(p, NextAfter(NumbersOf(db.versions, p), 1))], nextId := v + 1);
      ghost var inserted := db;
      var todo := files;
      while todo != {}
        invariant todo <= files
        invariant db == inserted.(versionFiles := before + (set i | i in files - todo :: VersionFile(v, inserted.files[i].name, inserted.files[i].content)))
        decreases todo
      {
        SomeElement(todo);
        var i :| i in todo;
        var f := db.files[i];
        db := db.(versionFiles := db.versionFiles + {VersionFile(v, f.name, f.content)});
        todo := todo - {i};
      }
      assert files - todo == files;
      return true;
    }

    method RestoreWSVersion(p: int, v: int) returns (ghost order: seq<VersionFile>)
      requires DistinctFiles(db.files) && (forall i <- db.files :: i < db.nextId)
      modifies this
      ensures multiset(order) == multiset(RowsOf(old(db).versionFiles, v))
      ensures db == Restored(old(db), p, order)
    {
      hide Restored, Upserted;
      var snaps := RowsOf(db.versionFiles, v);
      var todo := snaps;
      RestoredNothing(db, p);
      order := [];
      while todo != {}
        invariant todo <= snaps
        invariant multiset(order) == multiset(snaps - todo)
        invariant db == Restored(old(db), p, order)
        decreases todo
      {
        var r :| r in todo;
        UpsertWSFile(p, r.name, r.content);
        assert multiset(snaps - (todo - {r})) == multiset(snaps - todo) + multiset{r} by {
          assert snaps - (todo - {r}) == (snaps - todo) + {r};
        }
        RestoredOneMore(old(db), p, order, r);
        order := order + [r];
        todo := todo - {r};
      }
      assert snaps - todo == snaps;
    }
  }
}
