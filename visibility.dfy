/**
  Which archive projects a user may see: a first-match cascade on the
  user's role, returned as a condition on projects and as the base
  queryset every archive endpoint starts from.
*/
module Visibility {
  import opened Wrappers
  import opened ArchiveModel
  import opened QuerySet

  /** UESO, Director and VP see everything. */
  predicate SeesAll(role: Option<Role>) {
    role == Some(UESO) || role == Some(Director) || role == Some(VP)
  }

  /** Faculty, Program Head, Coordinator and Dean also see their own college's running projects. */
  predicate SeesOwnCollege(role: Option<Role>) {
    role == Some(Faculty) || role == Some(ProgramHead) || role == Some(Coordinator) || role == Some(Dean)
  }

  /** `Q(status="IN_PROGRESS") & Q(project_leader__college=user.college)`, or nothing when the user has no college. */
  predicate OwnCollegeInProgress(user: User, p: Project) {
    user.college.Some? && p.status == InProgress
    && p.leaderCollege.Some? && p.leaderCollege.value.id == user.college.value.id
  }

  /** `Q(status="COMPLETED")` */
  predicate IsCompleted(p: Project) {
    p.status == Completed
  }

  /** The condition the base queryset applies for `user`. */
  predicate CanSee(user: User, p: Project): (r: bool)
    ensures SeesAll(user.role) ==> r
    ensures p.status == InProgress && !SeesAll(user.role) ==> (r <==> SeesOwnCollege(user.role) && OwnCollegeInProgress(user, p))
    ensures p.status.OtherStatus? ==> (r <==> SeesAll(user.role))
  {
    if SeesAll(user.role) then true
    else if SeesOwnCollege(user.role) then p.status == Completed || OwnCollegeInProgress(user, p)
    else p.status == Completed
  }

  /** `_get_role_based_archive_queryset`: the projects of `db` that `user` may see. */
  function BaseQueryset(user: User, db: seq<Project>): (r: seq<Project>)
    ensures forall p :: p in r <==> p in db && CanSee(user, p)
    ensures SeesAll(user.role) ==> r == db
    ensures !SeesAll(user.role) && !SeesOwnCollege(user.role) ==> r == Filter(db, IsCompleted)
  {
    if SeesAll(user.role) then
      db
    else if SeesOwnCollege(user.role) then
      var q := Filter(db, (p: Project) => CanSee(user, p));
      DedupMembership(q);
      Dedup(q)
    else
      Filter(db, IsCompleted)
  }

  // ---------------------------------------------------------------------
  // The policy, case by case

  /** UESO, Director and VP see every project, whatever its status or college. */
  lemma SeesAllSeeEverything(user: User, db: seq<Project>, p: Project)
    requires SeesAll(user.role) && p in db
    ensures p in BaseQueryset(user, db)
  {
  }

  /**
    For Faculty, Program Head, Coordinator and Dean with a college: a
    project is visible iff it is completed, or it is in progress and led
    from the user's college. Any other status is never visible.
  */
  lemma OwnCollegeRule(user: User, p: Project)
    requires SeesOwnCollege(user.role) && user.college.Some?
    ensures CanSee(user, p) <==>
      p.status == Completed
      || (p.status == InProgress && p.leaderCollege.Some? && p.leaderCollege.value.id == user.college.value.id)
    ensures p.status.OtherStatus? ==> !CanSee(user, p)
  {
  }

  /** Without a college those roles see exactly the completed projects. */
  lemma NoCollegeSeesCompletedOnly(user: User, p: Project)
    requires SeesOwnCollege(user.role) && user.college.None?
    ensures CanSee(user, p) <==> p.status == Completed
  {
  }

  /** Every other role, and a user with no role, sees exactly the completed projects. */
  lemma OthersSeeCompletedOnly(user: User, p: Project)
    requires !SeesAll(user.role) && !SeesOwnCollege(user.role)
    ensures CanSee(user, p) <==> p.status == Completed
  {
  }

  /** The visible sets nest: residual roles within college-bound roles within UESO/Director/VP. */
  lemma VisibilityNests(other: User, staff: User, top: User, p: Project)
    requires !SeesAll(other.role) && !SeesOwnCollege(other.role)
    requires SeesOwnCollege(staff.role)
    requires SeesAll(top.role)
    ensures CanSee(other, p) ==> CanSee(staff, p)
    ensures CanSee(staff, p) ==> CanSee(top, p)
  {
  }

  /** A completed project is visible to every user. */
  lemma CompletedVisibleToAll(user: User, p: Project)
    requires p.status == Completed
    ensures CanSee(user, p)
  {
  }

  /** The rule depends on the user's role and, for college-bound roles, on the college's identity only. */
  lemma DependsOnRoleAndCollege(u1: User, u2: User, p: Project)
    requires u1.role == u2.role
    requires u1.college.Some? <==> u2.college.Some?
    requires u1.college.Some? ==> u1.college.value.id == u2.college.value.id
    ensures CanSee(u1, p) <==> CanSee(u2, p)
  {
  }

  /**
    Three projects: completed in college A, in progress in A, in progress
    in B. Faculty of A sees the first two, a guest the first, a director all.
  */
  lemma ThreeProjectScenario(p1: Project, p2: Project, p3: Project, a: College, b: College)
    requires a.id != b.id
    requires p1.status == Completed && p1.leaderCollege == Some(a)
    requires p2.status == InProgress && p2.leaderCollege == Some(a)
    requires p3.status == InProgress && p3.leaderCollege == Some(b)
    ensures BaseQueryset(User(Some(Faculty), Some(a)), [p1, p2, p3]) == [p1, p2]
    ensures BaseQueryset(User(Some(Guest), None), [p1, p2, p3]) == [p1]
    ensures BaseQueryset(User(Some(Director), None), [p1, p2, p3]) == [p1, p2, p3]
  {
    var faculty := User(Some(Faculty), Some(a));
    var db := [p1, p2, p3];
    var sees := (p: Project) => CanSee(faculty, p);
    var q := Filter(db, sees);
    assert db[1..] == [p2, p3] && db[1..][1..] == [p3] && [p3][1..] == [];
    assert Filter([p3], sees) == [];
    assert Filter([p2, p3], sees) == [p2];
    assert q == [p1, p2];
    assert Dedup(q) == [p1, p2] by {
      assert q[..1] == [p1];
      assert Dedup([p1]) == [p1] by { assert [p1][..0] == []; }
    }
    assert Filter([p3], IsCompleted) == [];
    assert Filter([p2, p3], IsCompleted) == [];
    assert Filter(db, IsCompleted) == [p1];
  }
}
