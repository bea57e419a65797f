/** The administration area's allowlist: server/internal/store/administrators.go, the handlers of
    server/cmd/admin, and the unique columns of server/internal/db/migrations/0002_apps_admin.sql.
    A sign-in, an addition, a removal and a boot-time seeding are each one atomic step; `lower`
    stands for the database's lower(). */
module Administrators {
  import opened Wrappers

  datatype Administrator = Administrator(subject: Option<string>, email: string, name: string, picture: string)

  datatype Table = Table(rows: map<int, Administrator>, nextId: int)

  const Empty := Table(map[], 1)

  ghost predicate SubjectsAreUnique(t: Table) {
    forall i, j :: i in t.rows && j in t.rows && t.rows[i].subject.Some? && t.rows[i].subject == t.rows[j].subject ==> i == j
  }

  ghost predicate EmailsAreUnique(t: Table, lower: string -> string) {
    forall i, j :: i in t.rows && j in t.rows && lower(t.rows[i].email) == lower(t.rows[j].email) ==> i == j
  }

  ghost predicate Valid(t: Table, lower: string -> string) {
    && SubjectsAreUnique(t)
    && EmailsAreUnique(t, lower)
    && (forall i <- t.rows :: i < t.nextId)
  }

  // ------------------------------------------------------------------ store calls

  function BySubject(t: Table, subject: string): (id: Option<int>)
    requires SubjectsAreUnique(t)
    ensures id.Some? ==> id.value in t.rows && t.rows[id.value].subject == Some(subject)
    ensures id.None? ==> forall i <- t.rows :: t.rows[i].subject != Some(subject)
  {
    if exists i :: i in t.rows && t.rows[i].subject == Some(subject) then
      var i :| i in t.rows && t.rows[i].subject == Some(subject);
      Some(i)
    else None
  }

  predicate Claims(a: Administrator, lower: string -> string, subject: string, email: string) {
    lower(a.email) == lower(email) && (a.subject.None? || a.subject == Some(subject))
  }

  function ByEmail(t: Table, lower: string -> string, subject: string, email: string): (id: Option<int>)
    requires EmailsAreUnique(t, lower)
    ensures id.Some? ==> id.value in t.rows && Claims(t.rows[id.value], lower, subject, email)
    ensures id.None? ==> forall i <- t.rows :: !Claims(t.rows[i], lower, subject, email)
  {
    if exists i :: i in t.rows && Claims(t.rows[i], lower, subject, email) then
      var i :| i in t.rows && Claims(t.rows[i], lower, subject, email);
      Some(i)
    else None
  }

  function FindAdministratorForLogin(t: Table, lower: string -> string, subject: string, email: string): Option<int>
    requires SubjectsAreUnique(t) && EmailsAreUnique(t, lower)
  {
    var bound := BySubject(t, subject);
    if bound.Some? then bound else ByEmail(t, lower, subject, email)
  }

  function EmailTaken(t: Table, lower: string -> string, email: string): bool {
    exists i :: i in t.rows && lower(t.rows[i].email) == lower(email)
  }

  // AddAdministrator; None is the unique violation.
  function Added(t: Table, lower: string -> string, email: string, name: string): Option<Table> {
    if EmailTaken(t, lower, email) then None
    else Some(Table(t.rows[t.nextId := Administrator(None, email, name, "")], t.nextId + 1))
  }

  function LoggedIn(t: Table, id: int, subject: string, name: string, picture: string): Table
    requires id in t.rows
  {
    var a := t.rows[id];
    t.(rows := t.rows[id := a.(subject := Some(subject),
                               name := if name != "" then name else a.name,
                               picture := if picture != "" then picture else a.picture)])
  }

  // The removal handler's guards.
  function MayRemove(t: Table, me: Option<int>, id: int): bool {
    id > 0 && me != Some(id) && |t.rows| > 1
  }

  function Removed(t: Table, id: int): Table {
    t.(rows := t.rows - {id})
  }

  // Rows for as many emails as go in before the first one already taken.
  function Seeded(t: Table, lower: string -> string, emails: seq<string>): Table
    decreases |emails|
  {
    if emails == [] then t
    else
      match Added(t, lower, emails[0], "")
      case None => t
      case Some(t') => Seeded(t', lower, emails[1..])
  }

  class Allowlist {
    var table: Table
    const lower: string -> string

    constructor (lower: string -> string)
      ensures this.lower == lower && table == Empty
    {
      this.lower := lower;
      table := Empty;
    }

    method AddAdministrator(email: string, name: string) returns (ok: bool)
      modifies this
      ensures ok <==> !EmailTaken(old(table), lower, email)
      ensures table == match Added(old(table), lower, email, name) case Some(t) => t case None => old(table)
    {
      if EmailTaken(table, lower, email) {
        return false;
      }
      var id := table.nextId;
      table := Table(table.rows[id := Administrator(None, email, name, "")], id + 1);
      return true;
    }

    // The sign-in callback once the provider has vouched for the claims.
    method SignIn(subject: string, email: string, name: string, picture: string) returns (admin: Option<int>)
      requires Valid(table, lower)
      modifies this
      ensures Valid(table, lower)
      ensures admin == if subject == "" then None else FindAdministratorForLogin(old(table), lower, subject, email)
      ensures admin.None? ==> table == old(table)
      ensures admin.Some? ==> admin.value in old(table).rows && table == LoggedIn(old(table), admin.value, subject, name, picture)
    {
      if subject == "" {
        return None;
      }
      admin := FindAdministratorForLogin(table, lower, subject, email);
      if admin.Some? {
        LoginNeverConflicts(table, lower, subject, email, name, picture);
        var a := table.rows[admin.value];
        a := a.(subject := Some(subject));
        if name != "" {
          a := a.(name := name);
        }
        if picture != "" {
          a := a.(picture := picture);
        }
        table := table.(rows := table.rows[admin.value := a]);
      }
    }

    method HandleRemove(me: Option<int>, id: int) returns (ok: bool)
      modifies this
      ensures ok <==> MayRemove(old(table), me, id)
      ensures table == if ok then Removed(old(table), id) else old(table)
    {
      if id <= 0 {
        return false;
      }
      if me.Some? && me.value == id {
        return false;
      }
      if |table.rows| <= 1 {
        return false;
      }
      table := table.(rows := table.rows - {id});
      return true;
    }

    method SeedAdministrators(emails: seq<string>) returns (inserted: nat, ok: bool)
      modifies this
      ensures table == if old(table).rows == map[] then Seeded(old(table), lower, emails) else old(table)
      ensures inserted <= |emails| && (ok <==> inserted == |emails| || old(table).rows != map[])
      ensures old(table).rows == map[] ==> inserted == table.nextId - old(table).nextId
    {
      inserted, ok := 0, true;
      if |emails| == 0 || |table.rows| > 0 {
        return;
      }
      while inserted < |emails|
        invariant inserted <= |emails|
        invariant table.nextId == old(table).nextId + inserted
        invariant Seeded(table, lower, emails[inserted..]) == Seeded(old(table), lower, emails)
      {
        assert emails[inserted..][1..] == emails[inserted + 1..];
        ok := AddAdministrator(emails[inserted], "");
        if !ok {
          return;
        }
        inserted := inserted + 1;
      }
    }
  }

  // ------------------------------------------------------------------ who may sign in

  /** A sign-in never runs into the unique columns, so it never fails half way. */
  lemma LoginNeverConflicts(t: Table, lower: string -> string, subject: string, email: string, name: string, picture: string)
    requires Valid(t, lower) && FindAdministratorForLogin(t, lower, subject, email).Some?
    ensures Valid(LoggedIn(t, FindAdministratorForLogin(t, lower, subject, email).value, subject, name, picture), lower)
  {}

  /** The row a sign-in resolves to: the one bound to the subject, whatever the email claim; failing
      that, the unbound one with the claimed email. Nothing else. */
  lemma WhoMaySignIn(t: Table, lower: string -> string, subject: string, email: string, i: int)
    requires Valid(t, lower) && i in t.rows
    ensures FindAdministratorForLogin(t, lower, subject, email) == Some(i) <==>
              || t.rows[i].subject == Some(subject)
              || (&& t.rows[i].subject.None?
                  && lower(t.rows[i].email) == lower(email)
                  && forall j <- t.rows :: t.rows[j].subject != Some(subject))
  {
    if t.rows[i].subject.None? && lower(t.rows[i].email) == lower(email) {
      assert Claims(t.rows[i], lower, subject, email);
    }
  }

  /** A sign-in binds its row to the subject and keeps the email; the claims replace the name and the
      picture unless they are empty. No other row changes. From then on the subject gets that row
      under any email, and nobody else gets it. */
  lemma SignInBinds(t: Table, lower: string -> string, subject: string, email: string, name: string, picture: string, j: int)
    requires Valid(t, lower) && FindAdministratorForLogin(t, lower, subject, email).Some?
    ensures var i := FindAdministratorForLogin(t, lower, subject, email).value;
            var after := LoggedIn(t, i, subject, name, picture);
            && i in t.rows && after.rows.Keys == t.rows.Keys
            && after.rows[i].subject == Some(subject) && after.rows[i].email == t.rows[i].email
            && (after.rows[i].name == if name == "" then t.rows[i].name else name)
            && (after.rows[i].picture == if picture == "" then t.rows[i].picture else picture)
            && (j in t.rows && j != i ==> after.rows[j] == t.rows[j])
    ensures var i := FindAdministratorForLogin(t, lower, subject, email).value;
            var after := LoggedIn(t, i, subject, name, picture);
            && Valid(after, lower)
            && forall s, e :: FindAdministratorForLogin(after, lower, s, e) == Some(i) <==> s == subject
  {
    hide SubjectsAreUnique, EmailsAreUnique;
    var i := FindAdministratorForLogin(t, lower, subject, email).value;
    var after := LoggedIn(t, i, subject, name, picture);
    LoginNeverConflicts(t, lower, subject, email, name, picture);
    forall s, e
      ensures FindAdministratorForLogin(after, lower, s, e) == Some(i) <==> s == subject
    {
      WhoMaySignIn(after, lower, s, e, i);
    }
  }

  /** Adding an administrator gives their email a row nobody is bound to, and changes no other; an
      identity without a row of its own can then sign in under that email, in any spelling that folds
      to it. An email already listed, in any spelling, is refused. */
  lemma AddedMaySignIn(t: Table, lower: string -> string, email: string, name: string, subject: string, e: string)
    requires Valid(t, lower)
    ensures Added(t, lower, email, name).None? <==> exists i :: i in t.rows && lower(t.rows[i].email) == lower(email)
    ensures Added(t, lower, email, name).Some? ==>
              var after := Added(t, lower, email, name).value;
              && Valid(after, lower)
              && after.rows == t.rows[t.nextId := Administrator(subject := None, email := email, name := name, picture := "")]
              && ((forall i <- t.rows :: t.rows[i].subject != Some(subject)) ==>
                    (FindAdministratorForLogin(after, lower, subject, e) == Some(t.nextId) <==> lower(e) == lower(email)))
  {
    if Added(t, lower, email, name).Some? {
      var after := Added(t, lower, email, name).value;
      WhoMaySignIn(after, lower, subject, e, t.nextId);
    }
  }

  // ------------------------------------------------------------------ histories

  datatype Call =
    | Login(subject: string, email: string, name: string, picture: string)
    | Add(email: string, name: string)
    | Remove(me: Option<int>, id: int)
    | Seed(emails: seq<string>)

  function Step(t: Table, lower: string -> string, c: Call): Table
    requires Valid(t, lower)
  {
    match c
    case Login(subject, email, name, picture) =>
      (match if subject == "" then None else FindAdministratorForLogin(t, lower, subject, email)
       case Some(i) => LoggedIn(t, i, subject, name, picture)
       case None => t)
    case Add(email, name) =>
      // The handler wants an address.
      if email == "" || '@' !in email then t
      else (match Added(t, lower, email, name) case Some(t') => t' case None => t)
    case Remove(me, id) => if MayRemove(t, me, id) then Removed(t, id) else t
    case Seed(emails) => if t.rows == map[] then Seeded(t, lower, emails) else t
  }

  lemma {:induction false} SeedingGrows(t: Table, lower: string -> string, emails: seq<string>)
    requires Valid(t, lower)
    ensures var t' := Seeded(t, lower, emails);
            && Valid(t', lower) && t.nextId <= t'.nextId
            && forall i <- t.rows :: i in t'.rows && t'.rows[i] == t.rows[i]
    decreases |emails|
  {
    if emails != [] && Added(t, lower, emails[0], "").Some? {
      SeedingGrows(Added(t, lower, emails[0], "").value, lower, emails[1..]);
    }
  }

  // What one call keeps of every row: its email for good, its subject once bound.
  ghost predicate KeepsIdentities(t: Table, t': Table) {
    && t.nextId <= t'.nextId
    && forall i <- t'.rows :: i < t.nextId ==>
         && i in t.rows
         && t'.rows[i].email == t.rows[i].email
         && (t.rows[i].subject.Some? ==> t'.rows[i].subject == t.rows[i].subject)
  }

  lemma StepKeepsAll(t: Table, lower: string -> string, c: Call)
    requires Valid(t, lower)
    ensures Valid(Step(t, lower, c), lower)
    ensures KeepsIdentities(t, Step(t, lower, c))
    ensures t.rows != map[] ==> Step(t, lower, c).rows != map[]
  {
    match c
    case Login(subject, email, name, picture) =>
      if subject != "" && FindAdministratorForLogin(t, lower, subject, email).Some? {
        LoginNeverConflicts(t, lower, subject, email, name, picture);
      }
    case Add(email, name) =>
    case Remove(me, id) =>
      if MayRemove(t, me, id) {
        RemovalLeavesSomeone(t, id);
      }
    case Seed(emails) =>
      SeedingGrows(t, lower, emails);
      if t.rows == map[] {
        SeedsAreNew(t, lower, emails);
      }
  }

  lemma RemovalLeavesSomeone(t: Table, id: int)
    requires |t.rows| > 1
    ensures Removed(t, id).rows != map[]
  {
    var rest := Removed(t, id).rows.Keys;
    assert t.rows.Keys <= {id} + rest;
    SubsetSize(t.rows.Keys, {id} + rest);
    assert |t.rows| == |t.rows.Keys|;
    assert rest == {} ==> {id} + rest == {id};
  }

  lemma SubsetSize(a: set<int>, b: set<int>)
    requires a <= b
    ensures |a| <= |b|
  {
    assert b == a + (b - a);
  }

  lemma {:induction false} SeedsAreNew(t: Table, lower: string -> string, emails: seq<string>)
    ensures forall i <- Seeded(t, lower, emails).rows :: i in t.rows || i >= t.nextId
    decreases |emails|
  {
    if emails != [] && Added(t, lower, emails[0], "").Some? {
      SeedsAreNew(Added(t, lower, emails[0], "").value, lower, emails[1..]);
    }
  }

  function After(t: Table, lower: string -> string, run: seq<Call>): (t': Table)
    requires Valid(t, lower)
    ensures Valid(t', lower)
    decreases |run|
  {
    if run == [] then t
    else
      var before := After(t, lower, run[..|run| - 1]);
      StepKeepsAll(before, lower, run[|run| - 1]);
      Step(before, lower, run[|run| - 1])
  }

  /** Over any run: a row that is still there keeps its email, and its subject once bound; an
      allowlist with someone on it never becomes empty. */
  lemma {:induction false} IdentitiesAreStable(t: Table, lower: string -> string, run: seq<Call>)
    requires Valid(t, lower)
    ensures KeepsIdentities(t, After(t, lower, run))
    ensures t.rows != map[] ==> After(t, lower, run).rows != map[]
    decreases |run|
  {
    if run != [] {
      IdentitiesAreStable(t, lower, run[..|run| - 1]);
      StepKeepsAll(After(t, lower, run[..|run| - 1]), lower, run[|run| - 1]);
    }
  }

  /** Once a row is bound, it answers to that subject alone for as long as it exists: the subject
      with any email claim, and nobody else even with the row's own email. */
  lemma BoundRowAnswersToOne(t: Table, lower: string -> string, run: seq<Call>, i: int, subject: string, email: string)
    requires Valid(t, lower) && i in t.rows && t.rows[i].subject.Some? && i in After(t, lower, run).rows
    ensures FindAdministratorForLogin(After(t, lower, run), lower, subject, email) == Some(i) <==> t.rows[i].subject == Some(subject)
  {
    IdentitiesAreStable(t, lower, run);
    WhoMaySignIn(After(t, lower, run), lower, subject, email, i);
  }

  function WithoutSeeds(run: seq<Call>): (r: seq<Call>)
    decreases |run|
  {
    if run == [] then []
    else WithoutSeeds(run[..|run| - 1]) + if run[|run| - 1].Seed? then [] else [run[|run| - 1]]
  }

  /** Restarts undo nothing: seeding changes no run that starts with someone on the list. */
  lemma {:induction false} RestartsUndoNothing(t: Table, lower: string -> string, run: seq<Call>)
    requires Valid(t, lower) && t.rows != map[]
    ensures After(t, lower, run) == After(t, lower, WithoutSeeds(run))
    decreases |run|
  {
    if run != [] {
      hide Step;
      var rest, last := run[..|run| - 1], run[|run| - 1];
      RestartsUndoNothing(t, lower, rest);
      IdentitiesAreStable(t, lower, rest);
      if last.Seed? {
        SeedingIsIdle(After(t, lower, rest), lower, last);
        assert WithoutSeeds(run) == WithoutSeeds(rest);
      } else {
        OneMore(t, lower, WithoutSeeds(rest), last);
        assert WithoutSeeds(run) == WithoutSeeds(rest) + [last];
      }
    }
  }

  lemma OneMore(t: Table, lower: string -> string, run: seq<Call>, c: Call)
    requires Valid(t, lower)
    ensures After(t, lower, run + [c]) == Step(After(t, lower, run), lower, c)
  {
    hide Step;
    assert (run + [c])[..|run|] == run;
  }

  lemma SeedingIsIdle(t: Table, lower: string -> string, c: Call)
    requires Valid(t, lower) && t.rows != map[] && c.Seed?
    ensures Step(t, lower, c) == t
  {}

  /** A removal takes its row unless that is the caller's own or the only one, and nothing else. */
  lemma RemovalIsExact(t: Table, lower: string -> string, me: Option<int>, id: int, j: int)
    requires Valid(t, lower)
    ensures var after := Step(t, lower, Remove(me, id));
            && (j in after.rows <==> j in t.rows && (j != id || id <= 0 || me == Some(id) || t.rows.Keys == {id}))
            && (j in after.rows ==> after.rows[j] == t.rows[j])
  {
    if id in t.rows {
      if |t.rows| <= 1 {
        OnlyRow(t, id);
      } else {
        assert t.rows.Keys == {id} ==> |t.rows| == |t.rows.Keys| == 1;
      }
    }
  }

  lemma OnlyRow(t: Table, id: int)
    requires id in t.rows && |t.rows| <= 1
    ensures t.rows.Keys == {id}
  {
    var rest := t.rows.Keys - {id};
    assert t.rows.Keys == rest + {id};
    assert |t.rows.Keys| == |t.rows|;
  }

  /** Nobody removes themselves, in whatever the others and the restarts do: a row is only lost to
      somebody else's removal. */
  lemma {:induction false} NobodyRemovesThemselves(t: Table, lower: string -> string, run: seq<Call>, i: int)
    requires Valid(t, lower) && i in t.rows
    requires forall k :: 0 <= k < |run| && run[k].Remove? && run[k].id == i ==> run[k].me == Some(i)
    ensures i in After(t, lower, run).rows
    decreases |run|
  {
    hide Step;
    if run != [] {
      var n := |run| - 1;
      NobodyRemovesThemselves(t, lower, run[..n], i);
      RowSurvives(After(t, lower, run[..n]), lower, run[n], i);
    }
  }

  lemma RowSurvives(t: Table, lower: string -> string, c: Call, i: int)
    requires Valid(t, lower) && i in t.rows && (c.Remove? && c.id == i ==> c.me == Some(i))
    ensures i in Step(t, lower, c).rows
  {
    if c.Seed? {
      SeedingGrows(t, lower, c.emails);
    }
  }

  // ------------------------------------------------------------------ seeding

  ghost predicate DistinctEmails(lower: string -> string, emails: seq<string>) {
    forall i, j :: 0 <= i < j < |emails| ==> lower(emails[i]) != lower(emails[j])
  }

  ghost predicate NoneTaken(t: Table, lower: string -> string, emails: seq<string>) {
    forall e <- emails :: !EmailTaken(t, lower, e)
  }

  ghost predicate AllFit(t: Table, lower: string -> string, emails: seq<string>) {
    NoneTaken(t, lower, emails) && DistinctEmails(lower, emails)
  }

  // The taken addresses once the given emails went in.
  ghost predicate Lists(t: Table, lower: string -> string, emails: seq<string>, t': Table) {
    forall e: string :: EmailTaken(t', lower, e) <==> EmailTaken(t, lower, e) || HoldsEmail(emails, lower, e)
  }

  ghost predicate HoldsEmail(emails: seq<string>, lower: string -> string, email: string) {
    exists e :: e in emails && lower(e) == lower(email)
  }

  lemma AddingLists(t: Table, lower: string -> string, email: string)
    requires Valid(t, lower) && Added(t, lower, email, "").Some?
    ensures Valid(Added(t, lower, email, "").value, lower)
    ensures Lists(t, lower, [email], Added(t, lower, email, "").value)
  {
    var t' := Added(t, lower, email, "").value;
    assert t'.rows[t.nextId].email == email;
    forall e: string
      ensures EmailTaken(t', lower, e) <==> EmailTaken(t, lower, e) || HoldsEmail([email], lower, e)
    {
      if EmailTaken(t, lower, e) {
        var i :| i in t.rows && lower(t.rows[i].email) == lower(e);
        assert i in t'.rows && t'.rows[i] == t.rows[i];
      } else if lower(email) == lower(e) {
        assert email in [email];
      }
    }
  }

  lemma FittingOneByOne(t: Table, lower: string -> string, emails: seq<string>, t': Table)
    requires emails != [] && Lists(t, lower, [emails[0]], t')
    ensures AllFit(t, lower, emails) <==> !EmailTaken(t, lower, emails[0]) && AllFit(t', lower, emails[1..])
  {
    hide EmailTaken;
    var rest := emails[1..];
    assert forall k :: 1 <= k < |emails| ==> emails[k] == rest[k - 1];
    assert forall k :: 0 <= k < |rest| ==> rest[k] == emails[k + 1] && rest[k] in emails;
    assert forall e <- emails :: e == emails[0] || e in rest;
    assert forall e: string :: HoldsEmail([emails[0]], lower, e) <==> lower(emails[0]) == lower(e) by {
      assert emails[0] in [emails[0]];
    }
  }

  /** Seeding adds rows nobody is bound to and without a name, and changes none. */
  lemma {:induction false} SeededRowsAreFresh(t: Table, lower: string -> string, emails: seq<string>, i: int)
    requires Valid(t, lower)
    ensures var t' := Seeded(t, lower, emails);
            && (i in t.rows ==> i in t'.rows && t'.rows[i] == t.rows[i])
            && (i in t'.rows && i !in t.rows ==>
                  && t'.rows[i].email in emails
                  && t'.rows[i] == Administrator(subject := None, email := t'.rows[i].email, name := "", picture := ""))
    decreases |emails|
  {
    if emails != [] && !EmailTaken(t, lower, emails[0]) {
      AddingLists(t, lower, emails[0]);
      SeededRowsAreFresh(Added(t, lower, emails[0], "").value, lower, emails[1..], i);
      assert forall e <- emails[1..] :: e in emails;
    }
  }

  /** The handler adds nobody without an address, and otherwise what the store adds. */
  lemma AdditionNeedsAnAddress(t: Table, lower: string -> string, email: string, name: string)
    requires Valid(t, lower)
    ensures Step(t, lower, Add(email, name)) == t <==> '@' !in email || exists i :: i in t.rows && lower(t.rows[i].email) == lower(email)
  {
    if '@' in email && !EmailTaken(t, lower, email) {
      assert t.nextId in Step(t, lower, Add(email, name)).rows && t.nextId !in t.rows;
    }
  }

  /** Seeding inserts every email exactly when none is taken and no two fold to the same address,
      and stops short otherwise; then the list holds those addresses on top of what it held. */
  lemma {:induction false} SeedingIsComplete(t: Table, lower: string -> string, emails: seq<string>)
    requires Valid(t, lower)
    ensures AllFit(t, lower, emails) <==> Seeded(t, lower, emails).nextId == t.nextId + |emails|
    ensures AllFit(t, lower, emails) ==> Lists(t, lower, emails, Seeded(t, lower, emails))
    decreases |emails|
  {
    if emails != [] && !EmailTaken(t, lower, emails[0]) {
      var t' := Added(t, lower, emails[0], "").value;
      AddingLists(t, lower, emails[0]);
      FittingOneByOne(t, lower, emails, t');
      SeedingIsComplete(t', lower, emails[1..]);
      ListsInTwoSteps(t, lower, emails, t', Seeded(t', lower, emails[1..]));
    }
  }

  lemma ListsInTwoSteps(t: Table, lower: string -> string, emails: seq<string>, t': Table, t'': Table)
    requires emails != [] && Lists(t, lower, [emails[0]], t')
    ensures Lists(t', lower, emails[1..], t'') ==> Lists(t, lower, emails, t'')
  {
    hide EmailTaken;
    assert emails == [emails[0]] + emails[1..];
    forall e: string
      ensures HoldsEmail(emails, lower, e) <==> HoldsEmail([emails[0]], lower, e) || HoldsEmail(emails[1..], lower, e)
    {
      assert emails[0] in [emails[0]];
      assert forall x :: x in emails <==> x in [emails[0]] || x in emails[1..];
    }
  }

  // ------------------------------------------------------------------ overlapping requests

  /** The last-administrator guard counts before it deletes. When two removals both pass it before
      either deletes, someone is left exactly when the list held more than those two. */
  lemma OverlappingRemovals(t: Table, me: Option<int>, you: Option<int>, i: int, j: int)
    requires MayRemove(t, me, i) && MayRemove(t, you, j)
    ensures Removed(Removed(t, i), j).rows == map[] <==> t.rows.Keys == {i, j}
  {
    var left := Removed(Removed(t, i), j).rows;
    if t.rows.Keys == {i, j} {
      assert forall k :: k in t.rows.Keys ==> k == i || k == j;
      assert left == map[];
    }
    if left == map[] {
      assert forall k <- t.rows.Keys :: k != i && k != j ==> k in left;
      if i !in t.rows.Keys || j !in t.rows.Keys || i == j {
        var k := if i in t.rows.Keys then i else j;
        SubsetSize(t.rows.Keys, {k});
      }
    }
  }
}
