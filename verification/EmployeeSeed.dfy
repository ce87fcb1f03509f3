/** Seeding of the store team: employees, their branch assignments over time, and the users linked to them. */
module EmployeeSeed {
  import opened Optional

  datatype Employee = Employee(
    id: nat, companyId: nat, code: string, firstName: string, lastName: string, email: string, mobile: string)

  datatype Assignment = Assignment(
    id: nat, employeeId: nat, branchId: nat, designation: string, isPrimary: bool, effectiveTo: Option<int>)

  datatype User = User(id: nat, email: string, employeeId: Option<nat>)

  datatype Post = Post(branchId: nat, designation: string)

  /** A listed member of staff. */
  datatype Staff = Staff(
    email: string, code: string, firstName: string, lastName: string, mobile: string, post: Post)

  // Fresh row ids are drawn from nextId.
  datatype Tables = Tables(employees: seq<Employee>, assignments: seq<Assignment>, users: seq<User>, nextId: nat)

  predicate Open(a: Assignment, employeeId: nat) {
    a.employeeId == employeeId && a.isPrimary && a.effectiveTo.None?
  }

  function PostOf(a: Assignment): Post {
    Post(a.branchId, a.designation)
  }

  // The first employee with a code, in table order.
  function FindEmployee(employees: seq<Employee>, code: string): (i: Option<nat>)
    ensures i.Some? ==> i.value < |employees| && employees[i.value].code == code
    ensures forall k :: 0 <= k < |employees| && (i.Some? ==> k < i.value) ==> employees[k].code != code
  {
    if employees == [] then None
    else if employees[0].code == code then Some(0)
    else
      var i := FindEmployee(employees[1..], code);
      assert forall k :: 0 < k < |employees| ==> employees[k] == employees[1..][k-1];
      if i.Some? then Some(i.value + 1) else None
  }

  // The first open primary assignment of an employee, in table order.
  function FindOpen(rows: seq<Assignment>, employeeId: nat): (i: Option<nat>)
    ensures i.Some? ==> i.value < |rows| && Open(rows[i.value], employeeId)
    ensures i.None? ==> forall k :: 0 <= k < |rows| ==> !Open(rows[k], employeeId)
  {
    if rows == [] then None
    else if Open(rows[0], employeeId) then Some(0)
    else
      var i := FindOpen(rows[1..], employeeId);
      assert forall k :: 0 < k < |rows| ==> rows[k] == rows[1..][k-1];
      if i.Some? then Some(i.value + 1) else None
  }

  function Close(a: Assignment, now: int): Assignment {
    a.(isPrimary := false, effectiveTo := Some(now))
  }

  // Close the open assignment and append one at the new post, if there is an open one and it differs.
  function Move(rows: seq<Assignment>, employeeId: nat, post: Post, now: int, freshId: nat): seq<Assignment> {
    var c := FindOpen(rows, employeeId);
    if c.Some? && PostOf(rows[c.value]) != post then
      rows[c.value := Close(rows[c.value], now)]
      + [Assignment(freshId, employeeId, post.branchId, post.designation, true, None)]
    else rows
  }

  function Link(users: seq<User>, userId: nat, employeeId: nat): seq<User> {
    seq(|users|, i requires 0 <= i < |users| =>
      if users[i].id == userId then users[i].(employeeId := Some(employeeId)) else users[i])
  }

  function LinkByEmail(users: seq<User>, userIds: map<string, nat>, email: string, employeeId: nat): seq<User> {
    if email in userIds then Link(users, userIds[email], employeeId) else users
  }

  // The ids by e-mail address; a later row replaces an earlier one.
  function UserIds(users: seq<User>): map<string, nat> {
    if users == [] then map[]
    else var n := |users| - 1; UserIds(users[..n])[users[n].email := users[n].id]
  }

  /** One iteration of the loop over the staff list. */
  function Step(db: Tables, userIds: map<string, nat>, companyId: nat, s: Staff, now: int): Tables {
    match FindEmployee(db.employees, s.code)
    case Some(i) =>
      var e := db.employees[i];
      var rows := Move(db.assignments, e.id, s.post, now, db.nextId);
      Tables(
        db.employees[i := e.(firstName := s.firstName, lastName := s.lastName)],
        rows,
        LinkByEmail(db.users, userIds, s.email, e.id),
        if rows == db.assignments then db.nextId else db.nextId + 1)
    case None =>
      var id := db.nextId;
      Tables(
        db.employees + [Employee(id, companyId, s.code, s.firstName, s.lastName, s.email, s.mobile)],
        db.assignments + [Assignment(id + 1, id, s.post.branchId, s.post.designation, true, None)],
        LinkByEmail(db.users, userIds, s.email, id),
        id + 2)
  }

  function Loop(db: Tables, userIds: map<string, nat>, companyId: nat, staff: seq<Staff>, times: seq<int>): Tables
    requires |staff| == |times|
    decreases staff
  {
    if staff == [] then db
    else Loop(Step(db, userIds, companyId, staff[0], times[0]), userIds, companyId, staff[1..], times[1..])
  }

  /** The whole seed; `times` are the clock readings of the iterations. */
  function Seed(db: Tables, companyId: nat, staff: seq<Staff>, times: seq<int>): Tables
    requires |staff| == |times|
  {
    Loop(db, UserIds(db.users), companyId, staff, times)
  }

  /** The tables as the seed changes them, row by row. */
  class Database {
    var employees: seq<Employee>
    var assignments: seq<Assignment>
    var users: seq<User>
    var nextId: nat

    function View(): Tables
      reads this
    {
      Tables(employees, assignments, users, nextId)
    }

    method SeedStaff(companyId: nat, staff: seq<Staff>, times: seq<int>)
      requires |staff| == |times|
      modifies this
      ensures View() == Seed(old(View()), companyId, staff, times)
    {
      var userIds := UserIds(users);
      for k := 0 to |staff|
        invariant Loop(View(), userIds, companyId, staff[k..], times[k..])
                  == Seed(old(View()), companyId, staff, times)
      {
        assert staff[k..][1..] == staff[k+1..] && times[k..][1..] == times[k+1..];
        SeedOne(userIds, companyId, staff[k], times[k]);
      }
    }

    // The loop's body.
    method SeedOne(userIds: map<string, nat>, companyId: nat, s: Staff, now: int)
      modifies this
      ensures View() == Step(old(View()), userIds, companyId, s, now)
    {
      var existing := FindEmployee(employees, s.code);
      if existing.Some? {
        var e := employees[existing.value];
        employees := employees[existing.value := e.(firstName := s.firstName, lastName := s.lastName)];
        var current := FindOpen(assignments, e.id);
        if current.Some? && PostOf(assignments[current.value]) != s.post {
          assignments := assignments[current.value := Close(assignments[current.value], now)];
          assignments := assignments
            + [Assignment(nextId, e.id, s.post.branchId, s.post.designation, true, None)];
          nextId := nextId + 1;
        }
        if s.email in userIds {
          users := Link(users, userIds[s.email], e.id);
        }
      } else {
        var id := nextId;
        employees := employees + [Employee(id, companyId, s.code, s.firstName, s.lastName, s.email, s.mobile)];
        assignments := assignments + [Assignment(id + 1, id, s.post.branchId, s.post.designation, true, None)];
        nextId := nextId + 2;
        if s.email in userIds {
          users := Link(users, userIds[s.email], id);
        }
      }
    }
  }

  // ----- Open posts

  /** The posts an employee holds now: those of the open primary rows. */
  function Posts(rows: seq<Assignment>, employeeId: nat): seq<Post> {
    if rows == [] then []
    else
      var n := |rows| - 1;
      Posts(rows[..n], employeeId) + (if Open(rows[n], employeeId) then [PostOf(rows[n])] else [])
  }

  lemma {:induction false} OpenMeansPosted(rows: seq<Assignment>, employeeId: nat, c: nat)
    requires c < |rows| && Open(rows[c], employeeId)
    ensures PostOf(rows[c]) in Posts(rows, employeeId)
    decreases |rows|
  {
    if c < |rows| - 1 {
      OpenMeansPosted(rows[..|rows|-1], employeeId, c);
    }
  }

  lemma {:induction false} NoneOpenNonePosted(rows: seq<Assignment>, employeeId: nat)
    requires forall k :: 0 <= k < |rows| ==> !Open(rows[k], employeeId)
    ensures Posts(rows, employeeId) == []
    decreases |rows|
  {
    if rows != [] {
      NoneOpenNonePosted(rows[..|rows|-1], employeeId);
    }
  }

  lemma {:induction false} ClosingOne(rows: seq<Assignment>, x: nat, c: nat, now: int, y: nat)
    requires c < |rows| && Open(rows[c], x)
    ensures y != x ==> Posts(rows[c := Close(rows[c], now)], y) == Posts(rows, y)
    ensures |Posts(rows[c := Close(rows[c], now)], x)| == |Posts(rows, x)| - 1
    decreases |rows|
  {
    var n := |rows| - 1;
    var after := rows[c := Close(rows[c], now)];
    if c == n {
      assert after[..n] == rows[..n];
    } else {
      assert after[..n] == rows[..n][c := Close(rows[c], now)];
      ClosingOne(rows[..n], x, c, now, y);
    }
  }

  lemma Appending(rows: seq<Assignment>, a: Assignment, x: nat)
    ensures Posts(rows + [a], x) == Posts(rows, x) + (if Open(a, x) then [PostOf(a)] else [])
  {
  }

  // The rows that say where an employee works now.
  ghost predicate CurrentRow(rows: seq<Assignment>, employeeId: nat, k: int, post: Post) {
    && 0 <= k < |rows|
    && rows[k].employeeId == employeeId && rows[k].isPrimary && rows[k].effectiveTo == None
    && rows[k].branchId == post.branchId && rows[k].designation == post.designation
  }

  lemma {:induction false} PostsAreCurrentRows(rows: seq<Assignment>, employeeId: nat, post: Post)
    ensures post in Posts(rows, employeeId) <==> exists k :: CurrentRow(rows, employeeId, k, post)
    decreases |rows|
  {
    if rows != [] {
      var n := |rows| - 1;
      PostsAreCurrentRows(rows[..n], employeeId, post);
      if k :| CurrentRow(rows, employeeId, k, post) {
        assert k < n ==> CurrentRow(rows[..n], employeeId, k, post);
      }
      if k :| CurrentRow(rows[..n], employeeId, k, post) {
        assert CurrentRow(rows, employeeId, k, post);
      }
      if Open(rows[n], employeeId) && PostOf(rows[n]) == post {
        assert CurrentRow(rows, employeeId, n, post);
      }
    }
  }

  /** At most one open post means at most one such row. */
  lemma {:induction false} OnePostOneRow(rows: seq<Assignment>, employeeId: nat, k: nat, m: nat, a: Post, b: Post)
    requires |Posts(rows, employeeId)| <= 1
    requires CurrentRow(rows, employeeId, k, a) && CurrentRow(rows, employeeId, m, b)
    ensures k == m && Posts(rows, employeeId) == [a]
    decreases |rows|
  {
    var n := |rows| - 1;
    if k < n {
      PostsAreCurrentRows(rows[..n], employeeId, a);
      assert CurrentRow(rows[..n], employeeId, k, a);
    }
    if m < n {
      PostsAreCurrentRows(rows[..n], employeeId, b);
      assert CurrentRow(rows[..n], employeeId, m, b);
    }
    if k < n && m < n {
      OnePostOneRow(rows[..n], employeeId, k, m, a, b);
    }
  }

  lemma FoundPost(rows: seq<Assignment>, x: nat)
    requires |Posts(rows, x)| <= 1
    ensures Posts(rows, x) == if FindOpen(rows, x).Some? then [PostOf(rows[FindOpen(rows, x).value])] else []
  {
    var c := FindOpen(rows, x);
    if c.Some? {
      OpenMeansPosted(rows, x, c.value);
    } else {
      NoneOpenNonePosted(rows, x);
    }
  }

  /** No row is altered but an open primary one, and such a row only by being closed: it is no longer primary, it
      carries one of the given times as its end, and all else on it stays. */
  ghost predicate HistoryKept(before: seq<Assignment>, after: seq<Assignment>, times: seq<int>) {
    && |before| <= |after|
    && forall i :: 0 <= i < |before| ==> RowKept(before[i], after[i], times)
  }

  ghost predicate RowKept(before: Assignment, after: Assignment, times: seq<int>) {
    || after == before
    || (&& before.isPrimary && before.effectiveTo == None
        && !after.isPrimary && after.effectiveTo.Some? && after.effectiveTo.value in times
        && after.id == before.id && after.employeeId == before.employeeId
        && after.branchId == before.branchId && after.designation == before.designation)
  }

  lemma MoveKeepsHistory(rows: seq<Assignment>, x: nat, post: Post, now: int, freshId: nat)
    ensures var after := Move(rows, x, post, now, freshId);
            && HistoryKept(rows, after, [now])
            && forall k :: 0 <= k < |rows| && rows[k].employeeId != x ==> after[k] == rows[k]
  {
  }

  lemma ClosedAndReopened(rows: seq<Assignment>, x: nat, c: nat, post: Post, now: int, freshId: nat, y: nat)
    requires c < |rows| && Open(rows[c], x) && |Posts(rows, x)| == 1
    ensures var a := Assignment(freshId, x, post.branchId, post.designation, true, None);
            var after := rows[c := Close(rows[c], now)] + [a];
            && (y != x ==> Posts(after, y) == Posts(rows, y))
            && Posts(after, x) == [post]
  {
    var closed := rows[c := Close(rows[c], now)];
    var a := Assignment(freshId, x, post.branchId, post.designation, true, None);
    ClosingOne(rows, x, c, now, y);
    Appending(closed, a, x);
    Appending(closed, a, y);
  }

  lemma Moved(rows: seq<Assignment>, x: nat, post: Post, now: int, freshId: nat, y: nat)
    requires |Posts(rows, x)| <= 1
    ensures var after := Move(rows, x, post, now, freshId);
            && HistoryKept(rows, after, [now])
            && (forall k :: 0 <= k < |rows| && rows[k].employeeId != x ==> after[k] == rows[k])
            && (if Posts(rows, x) == [] || Posts(rows, x) == [post] then after == rows
                else && |after| == |rows| + 1
                     && after[|rows|] == Assignment(freshId, x, post.branchId, post.designation, true, None))
            && (y != x ==> Posts(after, y) == Posts(rows, y))
            && Posts(after, x) == (if Posts(rows, x) == [] then [] else [post])
  {
    FoundPost(rows, x);
    var c := FindOpen(rows, x);
    if c.Some? && PostOf(rows[c.value]) != post {
      ClosedAndReopened(rows, x, c.value, post, now, freshId, y);
    }
    MoveKeepsHistory(rows, x, post, now, freshId);
  }

  // ----- What every iteration keeps

  ghost predicate DistinctEmployees(employees: seq<Employee>) {
    forall i, j :: 0 <= i < j < |employees| ==> employees[i].id != employees[j].id
  }

  ghost predicate DistinctAssignments(rows: seq<Assignment>) {
    forall i, j :: 0 <= i < j < |rows| ==> rows[i].id != rows[j].id
  }

  ghost predicate DistinctUsers(users: seq<User>) {
    forall i, j :: 0 <= i < j < |users| ==> users[i].id != users[j].id
  }

  /** Keys are unique and fresh ids unused, and nobody holds two open primary posts. */
  ghost predicate Inv(db: Tables) {
    && DistinctEmployees(db.employees)
    && (forall i :: 0 <= i < |db.employees| ==> db.employees[i].id < db.nextId)
    && DistinctAssignments(db.assignments)
    && (forall i :: 0 <= i < |db.assignments| ==>
          db.assignments[i].employeeId < db.nextId && db.assignments[i].id < db.nextId)
    && (forall x :: |Posts(db.assignments, x)| <= 1)
  }

  lemma NoPostsYet(db: Tables)
    requires Inv(db)
    ensures Posts(db.assignments, db.nextId) == []
  {
    NoneOpenNonePosted(db.assignments, db.nextId);
  }

  lemma StepPosts(db: Tables, userIds: map<string, nat>, companyId: nat, s: Staff, now: int, y: nat)
    requires Inv(db)
    ensures var i := FindEmployee(db.employees, s.code);
            var after := Step(db, userIds, companyId, s, now);
            var x := if i.Some? then db.employees[i.value].id else db.nextId;
            && HistoryKept(db.assignments, after.assignments, [now])
            && (y != x ==> Posts(after.assignments, y) == Posts(db.assignments, y))
            && Posts(after.assignments, x)
               == (if i.Some? && Posts(db.assignments, x) == [] then [] else [s.post])
  {
    var i := FindEmployee(db.employees, s.code);
    if i.Some? {
      Moved(db.assignments, db.employees[i.value].id, s.post, now, db.nextId, y);
    } else {
      var a := Assignment(db.nextId + 1, db.nextId, s.post.branchId, s.post.designation, true, None);
      NoPostsYet(db);
      Appending(db.assignments, a, y);
      Appending(db.assignments, a, db.nextId);
    }
  }

  lemma StepKeepsKeys(db: Tables, userIds: map<string, nat>, companyId: nat, s: Staff, now: int)
    requires Inv(db)
    ensures var after := Step(db, userIds, companyId, s, now);
            && DistinctEmployees(after.employees)
            && (forall i :: 0 <= i < |after.employees| ==> after.employees[i].id < after.nextId)
            && DistinctAssignments(after.assignments)
            && (forall i :: 0 <= i < |after.assignments| ==>
                  after.assignments[i].employeeId < after.nextId && after.assignments[i].id < after.nextId)
  {
  }

  /** Every iteration keeps the invariant, and the history of assignments. */
  lemma StepKeepsInv(db: Tables, userIds: map<string, nat>, companyId: nat, s: Staff, now: int)
    requires Inv(db)
    ensures Inv(Step(db, userIds, companyId, s, now))
    ensures HistoryKept(db.assignments, Step(db, userIds, companyId, s, now).assignments, [now])
  {
    var after := Step(db, userIds, companyId, s, now);
    StepKeepsKeys(db, userIds, companyId, s, now);
    forall y: nat
      ensures |Posts(after.assignments, y)| <= 1
    {
      StepPosts(db, userIds, companyId, s, now, y);
    }
    StepPosts(db, userIds, companyId, s, now, 0);
  }

  lemma HistoryTransitive(
    a: seq<Assignment>, b: seq<Assignment>, c: seq<Assignment>, times: seq<int>, later: seq<int>)
    requires HistoryKept(a, b, times) && HistoryKept(b, c, later)
    ensures HistoryKept(a, c, times + later)
  {
  }

  lemma {:induction false} RunKeepsInv(
    db: Tables, userIds: map<string, nat>, companyId: nat, staff: seq<Staff>, times: seq<int>)
    requires Inv(db) && |staff| == |times|
    ensures Inv(Loop(db, userIds, companyId, staff, times))
    ensures HistoryKept(db.assignments, Loop(db, userIds, companyId, staff, times).assignments, times)
    decreases staff
  {
    if staff != [] {
      var next := Step(db, userIds, companyId, staff[0], times[0]);
      StepKeepsInv(db, userIds, companyId, staff[0], times[0]);
      RunKeepsInv(next, userIds, companyId, staff[1..], times[1..]);
      HistoryTransitive(db.assignments, next.assignments,
                        Loop(db, userIds, companyId, staff, times).assignments, [times[0]], times[1..]);
      assert times == [times[0]] + times[1..];
    }
  }

  // ----- Where everyone ends up

  /** The open posts of the employee with a code; None if there is no such employee. */
  function Standing(db: Tables, code: string): Option<seq<Post>> {
    var i := FindEmployee(db.employees, code);
    if i.Some? then Some(Posts(db.assignments, db.employees[i.value].id)) else None
  }

  // What an iteration does to the standing of the employee it is about.
  function Placed(before: Option<seq<Post>>, post: Post): Option<seq<Post>> {
    if before == Some([]) then Some([]) else Some([post])
  }

  lemma FindAfterStep(db: Tables, userIds: map<string, nat>, companyId: nat, s: Staff, now: int, code: string)
    ensures var i, j := FindEmployee(db.employees, code),
                        FindEmployee(Step(db, userIds, companyId, s, now).employees, code);
            var after := Step(db, userIds, companyId, s, now).employees;
            && (i.Some? ==> j == i && after[j.value].id == db.employees[i.value].id
                            && (code != s.code ==> after[j.value] == db.employees[i.value]))
            && (i.None? ==> if code == s.code then j == Some(|db.employees|) else j.None?)
  {
    var after := Step(db, userIds, companyId, s, now).employees;
    assert forall k :: 0 <= k < |db.employees| ==> after[k].code == db.employees[k].code;
    var i := FindEmployee(db.employees, code);
    if i.Some? {
      FirstWithCode(after, code, i.value);
    } else if code == s.code {
      FirstWithCode(after, code, |db.employees|);
    }
  }

  lemma FirstWithCode(employees: seq<Employee>, code: string, k: nat)
    requires k < |employees| && employees[k].code == code
    requires forall m :: 0 <= m < k ==> employees[m].code != code
    ensures FindEmployee(employees, code) == Some(k)
  {
  }

  lemma StandingAfterStep(db: Tables, userIds: map<string, nat>, companyId: nat, s: Staff, now: int, code: string)
    requires Inv(db)
    ensures Standing(Step(db, userIds, companyId, s, now), code)
            == if code == s.code then Placed(Standing(db, code), s.post) else Standing(db, code)
  {
    FindAfterStep(db, userIds, companyId, s, now, code);
    var i := FindEmployee(db.employees, code);
    StepPosts(db, userIds, companyId, s, now, if i.Some? then db.employees[i.value].id else 0);
  }

  ghost predicate DistinctCodes(staff: seq<Staff>) {
    forall i, j :: 0 <= i < j < |staff| ==> staff[i].code != staff[j].code
  }

  ghost predicate DistinctEmails(staff: seq<Staff>) {
    forall i, j :: 0 <= i < j < |staff| ==> staff[i].email != staff[j].email
  }

  lemma {:induction false} StandingAfterRun(
    db: Tables, userIds: map<string, nat>, companyId: nat, staff: seq<Staff>, times: seq<int>, code: string)
    requires Inv(db) && |staff| == |times| && DistinctCodes(staff)
    ensures forall k :: 0 <= k < |staff| && staff[k].code == code ==>
              Standing(Loop(db, userIds, companyId, staff, times), code)
              == Placed(Standing(db, code), staff[k].post)
    ensures (forall k :: 0 <= k < |staff| ==> staff[k].code != code) ==>
              Standing(Loop(db, userIds, companyId, staff, times), code) == Standing(db, code)
    decreases staff
  {
    if staff != [] {
      var next := Step(db, userIds, companyId, staff[0], times[0]);
      StepKeepsInv(db, userIds, companyId, staff[0], times[0]);
      StandingAfterStep(db, userIds, companyId, staff[0], times[0], code);
      assert forall k :: 0 < k < |staff| ==> staff[k] == staff[1..][k-1];
      StandingAfterRun(next, userIds, companyId, staff[1..], times[1..], code);
    }
  }

  /** After seeding, a listed employee holds exactly one open primary post, the listed one, if and only if the
      employee is new or held an open primary post before; one who held none is left without. */
  lemma SeedPlacesExactly(db: Tables, companyId: nat, staff: seq<Staff>, times: seq<int>, k: nat)
    requires Inv(db) && |staff| == |times| && DistinctCodes(staff) && k < |staff|
    ensures var before, after := Standing(db, staff[k].code),
                                 Standing(Seed(db, companyId, staff, times), staff[k].code);
            && (after == Some([staff[k].post]) <==> before != Some([]))
            && (after == Some([]) <==> before == Some([]))
  {
    StandingAfterRun(db, UserIds(db.users), companyId, staff, times, staff[k].code);
  }

  /** It happens: an employee of these tables has no open post, and none after being seeded at any post. */
  lemma UnplacedStaysUnplaced(companyId: nat, s: Staff, time: int) returns (db: Tables)
    ensures Inv(db) && |db.employees| == 1 && Standing(db, s.code) == Some([])
    ensures Standing(Seed(db, companyId, [s], [time]), s.code) == Some([])
  {
    db := Tables([Employee(0, companyId, s.code, s.firstName, s.lastName, s.email, s.mobile)], [], [], 1);
    assert Standing(db, s.code) == Some([]);
    SeedPlacesExactly(db, companyId, [s], [time], 0);
  }

  lemma {:induction false} UserIdsFromRows(users: seq<User>, email: string)
    requires email in UserIds(users)
    ensures exists k :: 0 <= k < |users| && users[k].email == email && users[k].id == UserIds(users)[email]
    decreases |users|
  {
    var n := |users| - 1;
    if users[n].email != email {
      UserIdsFromRows(users[..n], email);
      var k :| 0 <= k < n && users[..n][k].email == email && users[..n][k].id == UserIds(users)[email];
      assert users[k] == users[..n][k];
    }
  }

  /** An e-mail address is known exactly if some user has it, and stands for the last such user. */
  lemma {:induction false} UserIdsExactly(users: seq<User>, email: string)
    ensures email in UserIds(users) <==> exists k :: 0 <= k < |users| && users[k].email == email
    ensures forall k :: 0 <= k < |users| && users[k].email == email
                        && (forall m :: k < m < |users| ==> users[m].email != email)
                        ==> UserIds(users)[email] == users[k].id
    decreases |users|
  {
    if users != [] {
      var n := |users| - 1;
      UserIdsExactly(users[..n], email);
      assert forall k :: 0 <= k < n ==> users[..n][k] == users[k];
    }
  }

  lemma UserIdsInjective(users: seq<User>)
    requires DistinctUsers(users)
    ensures Injective(UserIds(users))
  {
    forall a, b | a in UserIds(users) && b in UserIds(users) && a != b
      ensures UserIds(users)[a] != UserIds(users)[b]
    {
      UserIdsFromRows(users, a);
      UserIdsFromRows(users, b);
    }
  }

  // ----- What else changes, and what does not

  function EmployeeOf(db: Tables, code: string): Option<Employee> {
    var i := FindEmployee(db.employees, code);
    if i.Some? then Some(db.employees[i.value]) else None
  }

  // A known employee is renamed; an unknown one is hired under a fresh id.
  ghost predicate Enrolled(
    before: Option<Employee>, after: Option<Employee>, companyId: nat, s: Staff, firstFree: nat)
  {
    && after.Some?
    && match before
       case Some(e) => after.value == e.(firstName := s.firstName, lastName := s.lastName)
       case None => after.value.id >= firstFree && after.value
                    == Employee(after.value.id, companyId, s.code, s.firstName, s.lastName, s.email, s.mobile)
  }

  lemma EmployeeAfterStep(db: Tables, userIds: map<string, nat>, companyId: nat, s: Staff, now: int, code: string)
    ensures var after := Step(db, userIds, companyId, s, now);
            && after.nextId >= db.nextId
            && (code == s.code ==> Enrolled(EmployeeOf(db, code), EmployeeOf(after, code), companyId, s, db.nextId))
            && (code != s.code ==> EmployeeOf(after, code) == EmployeeOf(db, code))
  {
    FindAfterStep(db, userIds, companyId, s, now, code);
  }

  /** Listed employees end up renamed or hired as listed; all others keep their rows. */
  lemma {:induction false} RunEnrolsTheListed(
    db: Tables, userIds: map<string, nat>, companyId: nat, staff: seq<Staff>, times: seq<int>, code: string)
    requires |staff| == |times| && DistinctCodes(staff)
    ensures var after := Loop(db, userIds, companyId, staff, times);
            && (forall k :: 0 <= k < |staff| && staff[k].code == code ==>
                  Enrolled(EmployeeOf(db, code), EmployeeOf(after, code), companyId, staff[k], db.nextId))
            && ((forall k :: 0 <= k < |staff| ==> staff[k].code != code) ==>
                  EmployeeOf(after, code) == EmployeeOf(db, code))
    decreases staff
  {
    if staff != [] {
      EmployeeAfterStep(db, userIds, companyId, staff[0], times[0], code);
      assert forall k :: 0 < k < |staff| ==> staff[k] == staff[1..][k-1];
      RunEnrolsTheListed(Step(db, userIds, companyId, staff[0], times[0]), userIds, companyId,
                         staff[1..], times[1..], code);
    }
  }

  lemma {:induction false} OtherUserUntouched(
    db: Tables, userIds: map<string, nat>, companyId: nat, staff: seq<Staff>, times: seq<int>, k: nat)
    requires |staff| == |times| && k < |db.users|
    requires forall s :: s in staff && s.email in userIds ==> userIds[s.email] != db.users[k].id
    ensures var after := Loop(db, userIds, companyId, staff, times).users;
            |after| == |db.users| && after[k] == db.users[k]
    decreases staff
  {
    if staff != [] {
      OtherUserUntouched(Step(db, userIds, companyId, staff[0], times[0]), userIds, companyId,
                         staff[1..], times[1..], k);
    }
  }

  /** A user whose e-mail address is not on the list stays linked to whoever it was linked to. */
  lemma UnlistedUserUntouched(db: Tables, companyId: nat, staff: seq<Staff>, times: seq<int>, k: nat)
    requires |staff| == |times| && k < |db.users| && DistinctUsers(db.users)
    requires forall s :: s in staff ==> s.email != db.users[k].email
    ensures var after := Seed(db, companyId, staff, times).users;
            |after| == |db.users| && after[k] == db.users[k]
  {
    var userIds := UserIds(db.users);
    forall s | s in staff && s.email in userIds
      ensures userIds[s.email] != db.users[k].id
    {
      UserIdsFromRows(db.users, s.email);
    }
    OtherUserUntouched(db, userIds, companyId, staff, times, k);
  }

  // ----- Running the seed again

  ghost predicate Linked(users: seq<User>, userIds: map<string, nat>, email: string, employeeId: nat) {
    email in userIds ==>
      forall k :: 0 <= k < |users| && users[k].id == userIds[email] ==> users[k].employeeId == Some(employeeId)
  }

  /** A listed member of staff has the listed name and no open post but the listed one. */
  ghost predicate InPlace(db: Tables, s: Staff) {
    var e := EmployeeOf(db, s.code);
    && e.Some? && e.value.firstName == s.firstName && e.value.lastName == s.lastName
    && (Standing(db, s.code) == Some([]) || Standing(db, s.code) == Some([s.post]))
  }

  // The user with the listed e-mail address, if any, is linked to the employee.
  ghost predicate HasLink(db: Tables, userIds: map<string, nat>, s: Staff) {
    EmployeeOf(db, s.code).Some? && Linked(db.users, userIds, s.email, EmployeeOf(db, s.code).value.id)
  }

  ghost predicate Injective(userIds: map<string, nat>) {
    forall a, b :: a in userIds && b in userIds && a != b ==> userIds[a] != userIds[b]
  }

  lemma StepSettles(db: Tables, userIds: map<string, nat>, companyId: nat, s: Staff, now: int)
    requires Inv(db)
    ensures InPlace(Step(db, userIds, companyId, s, now), s)
    ensures HasLink(Step(db, userIds, companyId, s, now), userIds, s)
  {
    FindAfterStep(db, userIds, companyId, s, now, s.code);
    StandingAfterStep(db, userIds, companyId, s, now, s.code);
  }

  lemma StepLeavesSettled(db: Tables, userIds: map<string, nat>, companyId: nat, s: Staff, now: int, r: Staff)
    requires Inv(db) && r.code != s.code
    ensures InPlace(db, r) ==> InPlace(Step(db, userIds, companyId, s, now), r)
    ensures HasLink(db, userIds, r) && Injective(userIds) && r.email != s.email ==>
              HasLink(Step(db, userIds, companyId, s, now), userIds, r)
  {
    FindAfterStep(db, userIds, companyId, s, now, r.code);
    StandingAfterStep(db, userIds, companyId, s, now, r.code);
  }

  lemma InPlaceStepOnlyLinks(db: Tables, userIds: map<string, nat>, companyId: nat, s: Staff, now: int)
    requires Inv(db) && InPlace(db, s)
    ensures var e := EmployeeOf(db, s.code).value;
            Step(db, userIds, companyId, s, now) == db.(users := LinkByEmail(db.users, userIds, s.email, e.id))
    ensures HasLink(db, userIds, s) ==> Step(db, userIds, companyId, s, now) == db
  {
    var e := EmployeeOf(db, s.code).value;
    FoundPost(db.assignments, e.id);
    assert e.(firstName := s.firstName, lastName := s.lastName) == e;
    if HasLink(db, userIds, s) {
      assert LinkByEmail(db.users, userIds, s.email, e.id) == db.users;
    }
  }

  lemma {:induction false} RunSettles(
    db: Tables, userIds: map<string, nat>, companyId: nat, staff: seq<Staff>, times: seq<int>, r: Staff)
    requires Inv(db) && |staff| == |times| && DistinctCodes(staff)
    ensures var after := Loop(db, userIds, companyId, staff, times);
            && (r in staff || (InPlace(db, r) && forall k :: 0 <= k < |staff| ==> staff[k].code != r.code)
                ==> InPlace(after, r))
            && (Injective(userIds) && DistinctEmails(staff)
                && (r in staff || (HasLink(db, userIds, r) && forall k :: 0 <= k < |staff| ==>
                                     staff[k].code != r.code && staff[k].email != r.email))
                ==> HasLink(after, userIds, r))
    decreases staff
  {
    if staff != [] {
      var s, next := staff[0], Step(db, userIds, companyId, staff[0], times[0]);
      StepKeepsInv(db, userIds, companyId, s, times[0]);
      assert forall k :: 0 < k < |staff| ==> staff[k] == staff[1..][k-1];
      if r == s {
        StepSettles(db, userIds, companyId, s, times[0]);
      } else if r.code != s.code {
        StepLeavesSettled(db, userIds, companyId, s, times[0], r);
      }
      RunSettles(next, userIds, companyId, staff[1..], times[1..], r);
    }
  }

  lemma {:induction false} InPlaceRunAddsNothing(
    db: Tables, userIds: map<string, nat>, companyId: nat, staff: seq<Staff>, times: seq<int>)
    requires Inv(db) && |staff| == |times| && forall s :: s in staff ==> InPlace(db, s)
    ensures Loop(db, userIds, companyId, staff, times)
            == db.(users := Loop(db, userIds, companyId, staff, times).users)
    ensures (forall s :: s in staff ==> HasLink(db, userIds, s)) ==>
              Loop(db, userIds, companyId, staff, times) == db
    decreases staff
  {
    if staff != [] {
      var next := Step(db, userIds, companyId, staff[0], times[0]);
      InPlaceStepOnlyLinks(db, userIds, companyId, staff[0], times[0]);
      forall s | s in staff
        ensures InPlace(next, s)
      {
        assert InPlace(db, s);
      }
      InPlaceRunAddsNothing(next, userIds, companyId, staff[1..], times[1..]);
    }
  }

  ghost predicate SameKeys(a: seq<User>, b: seq<User>) {
    |a| == |b| && forall k :: 0 <= k < |a| ==> a[k].id == b[k].id && a[k].email == b[k].email
  }

  lemma {:induction false} SameKeysSameIds(a: seq<User>, b: seq<User>)
    requires SameKeys(a, b)
    ensures UserIds(a) == UserIds(b)
    decreases |a|
  {
    if a != [] {
      SameKeysSameIds(a[..|a|-1], b[..|b|-1]);
    }
  }

  lemma {:induction false} RunKeepsUserKeys(
    db: Tables, userIds: map<string, nat>, companyId: nat, staff: seq<Staff>, times: seq<int>)
    requires |staff| == |times|
    ensures SameKeys(db.users, Loop(db, userIds, companyId, staff, times).users)
    decreases staff
  {
    if staff != [] {
      var next := Step(db, userIds, companyId, staff[0], times[0]);
      assert SameKeys(db.users, next.users);
      RunKeepsUserKeys(next, userIds, companyId, staff[1..], times[1..]);
    }
  }

  /** After one run every listed member of staff has the listed name and no open post but the listed one, and
      the user with the listed e-mail address, if there is one, is linked to the employee. */
  lemma SeedSettlesEveryone(db: Tables, companyId: nat, staff: seq<Staff>, times: seq<int>, s: Staff)
    requires Inv(db) && |staff| == |times| && DistinctCodes(staff) && s in staff
    ensures InPlace(Seed(db, companyId, staff, times), s)
    ensures DistinctUsers(db.users) && DistinctEmails(staff) ==>
              HasLink(Seed(db, companyId, staff, times), UserIds(db.users), s)
  {
    if DistinctUsers(db.users) {
      UserIdsInjective(db.users);
    }
    RunSettles(db, UserIds(db.users), companyId, staff, times, s);
  }

  /** The user with a listed e-mail address ends up linked to the employee of that listing. */
  lemma ListedUserIsLinked(db: Tables, companyId: nat, staff: seq<Staff>, times: seq<int>, s: Staff, k: nat)
    requires Inv(db) && DistinctUsers(db.users) && |staff| == |times|
    requires DistinctCodes(staff) && DistinctEmails(staff) && s in staff
    requires k < |db.users| && db.users[k].email == s.email
    requires forall m :: k < m < |db.users| ==> db.users[m].email != s.email
    ensures var after := Seed(db, companyId, staff, times);
            && EmployeeOf(after, s.code).Some? && |after.users| == |db.users|
            && after.users[k] == db.users[k].(employeeId := Some(EmployeeOf(after, s.code).value.id))
  {
    SeedSettlesEveryone(db, companyId, staff, times, s);
    UserIdsExactly(db.users, s.email);
    RunKeepsUserKeys(db, UserIds(db.users), companyId, staff, times);
  }

  // The employee with this code is known and has no current row.
  ghost predicate Placeless(db: Tables, code: string) {
    EmployeeOf(db, code).Some?
    && forall k, post :: !CurrentRow(db.assignments, EmployeeOf(db, code).value.id, k, post)
  }

  lemma PlacelessExactlyWhen(db: Tables, code: string)
    ensures Placeless(db, code) <==> Standing(db, code) == Some([])
  {
    if EmployeeOf(db, code).Some? {
      var x := EmployeeOf(db, code).value.id;
      var posts := Posts(db.assignments, x);
      if posts == [] {
        forall k, post
          ensures !CurrentRow(db.assignments, x, k, post)
        {
          PostsAreCurrentRows(db.assignments, x, post);
        }
      } else {
        PostsAreCurrentRows(db.assignments, x, posts[0]);
      }
    }
  }

  /** Seen in the table: after seeding, a listed employee has exactly one current row, at the listed post, unless
      there was such an employee without any; then there is still none. */
  lemma SeedLeavesOneCurrentRow(db: Tables, companyId: nat, staff: seq<Staff>, times: seq<int>, k: nat)
    requires Inv(db) && |staff| == |times| && DistinctCodes(staff) && k < |staff|
    ensures var s, after := staff[k], Seed(db, companyId, staff, times);
            && (Placeless(db, s.code) <==> Placeless(after, s.code))
            && (!Placeless(db, s.code) ==>
                  && EmployeeOf(after, s.code).Some?
                  && var x := EmployeeOf(after, s.code).value.id;
                     exists r :: CurrentRow(after.assignments, x, r, s.post)
                                 && forall m, post :: CurrentRow(after.assignments, x, m, post) ==> m == r)
  {
    var s, after := staff[k], Seed(db, companyId, staff, times);
    SeedPlacesExactly(db, companyId, staff, times, k);
    PlacelessExactlyWhen(db, s.code);
    PlacelessExactlyWhen(after, s.code);
    if !Placeless(db, s.code) {
      var x := EmployeeOf(after, s.code).value.id;
      PostsAreCurrentRows(after.assignments, x, s.post);
      var r :| CurrentRow(after.assignments, x, r, s.post);
      forall m, post | CurrentRow(after.assignments, x, m, post)
        ensures m == r
      {
        OnePostOneRow(after.assignments, x, r, m, s.post, post);
      }
    }
  }

  /** A second run, at whatever later times, adds no row and changes none but users it may link anew; when the
      listed e-mail addresses are distinct too, it changes nothing at all. */
  lemma SecondRunAddsNothing(db: Tables, companyId: nat, staff: seq<Staff>, times: seq<int>, later: seq<int>)
    requires Inv(db) && |staff| == |times| == |later| && DistinctCodes(staff)
    ensures var once := Seed(db, companyId, staff, times);
            var twice := Seed(once, companyId, staff, later);
            && twice == once.(users := twice.users)
            && |twice.users| == |once.users|
            && (DistinctUsers(db.users) && DistinctEmails(staff) ==> twice == once)
  {
    var userIds := UserIds(db.users);
    var once := Seed(db, companyId, staff, times);
    RunKeepsInv(db, userIds, companyId, staff, times);
    forall s | s in staff
      ensures InPlace(once, s)
      ensures DistinctUsers(db.users) && DistinctEmails(staff) ==> HasLink(once, userIds, s)
    {
      SeedSettlesEveryone(db, companyId, staff, times, s);
    }
    RunKeepsUserKeys(db, userIds, companyId, staff, times);
    SameKeysSameIds(db.users, once.users);
    InPlaceRunAddsNothing(once, userIds, companyId, staff, later);
    RunKeepsUserKeys(once, userIds, companyId, staff, later);
  }
}
