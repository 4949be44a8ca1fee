/** The admission limiter: counts of active requests per project and per user. */
module Limiter {
  type Lease = (string, string)

  function CountProject(leases: seq<Lease>, project: string): nat {
    if leases == [] then 0
    else CountProject(leases[..|leases| - 1], project) + if leases[|leases| - 1].0 == project then 1 else 0
  }

  function CountUser(leases: seq<Lease>, lease: Lease): nat {
    if leases == [] then 0
    else CountUser(leases[..|leases| - 1], lease) + if leases[|leases| - 1] == lease then 1 else 0
  }

  /** `counts.get(key, 0)` */
  function CountAt<K(==)>(counts: map<K, int>, key: K): int {
    if key in counts then counts[key] else 0
  }

  /** `_decrement`: a count that would reach zero is removed. */
  function Decremented<K(==)>(counts: map<K, int>, key: K): map<K, int>
    requires key in counts
  {
    if counts[key] - 1 <= 0 then counts - {key} else counts[key := counts[key] - 1]
  }

  /** The map holds the positive counts and nothing else. */
  ghost predicate CountsProjects(counts: map<string, int>, leases: seq<Lease>) {
    forall p :: (p in counts <==> CountProject(leases, p) > 0) && (p in counts ==> counts[p] == CountProject(leases, p))
  }

  ghost predicate CountsUsers(counts: map<Lease, int>, leases: seq<Lease>) {
    forall u :: (u in counts <==> CountUser(leases, u) > 0) && (u in counts ==> counts[u] == CountUser(leases, u))
  }

  lemma {:induction false} CountAppend(a: seq<Lease>, b: seq<Lease>, project: string, lease: Lease)
    ensures CountProject(a + b, project) == CountProject(a, project) + CountProject(b, project)
    ensures CountUser(a + b, lease) == CountUser(a, lease) + CountUser(b, lease)
  {
    if b == [] {
      assert a + b == a;
    } else {
      assert (a + b)[..|a + b| - 1] == a + b[..|b| - 1];
      CountAppend(a, b[..|b| - 1], project, lease);
    }
  }

  lemma CountWithout(leases: seq<Lease>, i: nat, project: string, lease: Lease)
    requires i < |leases|
    ensures CountProject(leases[..i] + leases[i + 1..], project)
         == CountProject(leases, project) - if leases[i].0 == project then 1 else 0
    ensures CountUser(leases[..i] + leases[i + 1..], lease)
         == CountUser(leases, lease) - if leases[i] == lease then 1 else 0
  {
    var a, b := leases[..i], leases[i + 1..];
    assert leases == a + ([leases[i]] + b);
    CountAppend(a, b, project, lease);
    CountAppend(a, [leases[i]] + b, project, lease);
    CountAppend([leases[i]], b, project, lease);
  }

  lemma {:induction false} CountPositive(leases: seq<Lease>, i: nat)
    requires i < |leases|
    ensures CountUser(leases, leases[i]) > 0 && CountProject(leases, leases[i].0) > 0
  {
    if i < |leases| - 1 {
      CountPositive(leases[..|leases| - 1], i);
    }
  }

  // ---- a project's count is the sum of its user counts ----

  ghost function UserSum(leases: seq<Lease>, users: set<Lease>): nat {
    if users == {} then 0
    else
      var u :| u in users;
      CountUser(leases, u) + UserSum(leases, users - {u})
  }

  lemma {:induction false} UserSumPick(leases: seq<Lease>, users: set<Lease>, u: Lease)
    requires u in users
    ensures UserSum(leases, users) == CountUser(leases, u) + UserSum(leases, users - {u})
  {
    var v :| v in users && UserSum(leases, users) == CountUser(leases, v) + UserSum(leases, users - {v});
    if v != u {
      UserSumPick(leases, users - {v}, u);
      UserSumPick(leases, users - {u}, v);
      assert users - {v} - {u} == users - {u} - {v};
    }
  }

  lemma {:induction false} UserSumAppend(leases: seq<Lease>, lease: Lease, users: set<Lease>)
    ensures UserSum(leases + [lease], users) == UserSum(leases, users) + if lease in users then 1 else 0
  {
    assert (leases + [lease])[..|leases|] == leases;
    if users != {} {
      var u :| u in users;
      UserSumPick(leases, users, u);
      UserSumPick(leases + [lease], users, u);
      UserSumAppend(leases, lease, users - {u});
    }
  }

  lemma {:induction false} NoLeasesNoSum(users: set<Lease>)
    ensures UserSum([], users) == 0
  {
    if users != {} {
      var u :| u in users;
      UserSumPick([], users, u);
      NoLeasesNoSum(users - {u});
    }
  }

  /** For any set of users of the project that covers its leases, the user counts add up to the
      project count. */
  lemma {:induction false} ProjectCountIsUserSum(leases: seq<Lease>, project: string, users: set<Lease>)
    requires forall u :: u in users ==> u.0 == project
    requires forall i :: 0 <= i < |leases| && leases[i].0 == project ==> leases[i] in users
    ensures CountProject(leases, project) == UserSum(leases, users)
  {
    if leases == [] {
      NoLeasesNoSum(users);
    } else {
      var before, last := leases[..|leases| - 1], leases[|leases| - 1];
      ProjectCountIsUserSum(before, project, users);
      assert leases == before + [last];
      UserSumAppend(before, last, users);
    }
  }

  // ---- the limiter ----

  datatype Admission = Admitted | ProjectLimitExceeded | UserLimitExceeded

  class AsyncConcurrencyLimiter {
    const maxPerProject: int
    const maxPerUser: int
    var projectCounts: map<string, int>
    var userCounts: map<Lease, int>
    /** The requests that were admitted and have not been released. */
    ghost var leases: seq<Lease>

    /** Both maps count the live leases exactly, absent keys meaning zero, and both caps hold. */
    ghost predicate Valid()
      reads this
    {
      && maxPerProject > 0 && maxPerUser > 0
      && CountsProjects(projectCounts, leases)
      && CountsUsers(userCounts, leases)
      && (forall p :: CountProject(leases, p) <= maxPerProject)
      && (forall u :: CountUser(leases, u) <= maxPerUser)
    }

    constructor (maxPerProject: int, maxPerUser: int)
      requires maxPerProject > 0 && maxPerUser > 0
      ensures Valid() && leases == []
      ensures this.maxPerProject == maxPerProject && this.maxPerUser == maxPerUser
    {
      this.maxPerProject := maxPerProject;
      this.maxPerUser := maxPerUser;
      projectCounts := map[];
      userCounts := map[];
      leases := [];
    }

    /** `_acquire`: admitted exactly when neither cap is reached; a rejection changes nothing. */
    method Acquire(project: string, user: string) returns (admission: Admission)
      requires Valid()
      modifies this
      ensures Valid()
      ensures admission == ProjectLimitExceeded <==> CountProject(old(leases), project) >= maxPerProject
      ensures admission == UserLimitExceeded <==>
                CountProject(old(leases), project) < maxPerProject && CountUser(old(leases), (project, user)) >= maxPerUser
      ensures admission == Admitted ==> leases == old(leases) + [(project, user)]
      ensures admission != Admitted ==>
                leases == old(leases) && projectCounts == old(projectCounts) && userCounts == old(userCounts)
    {
      var lease := (project, user);
      var projectCount := CountAt(projectCounts, project);
      var userCount := CountAt(userCounts, lease);
      if projectCount >= maxPerProject {
        return ProjectLimitExceeded;
      }
      if userCount >= maxPerUser {
        return UserLimitExceeded;
      }
      projectCounts := projectCounts[project := projectCount + 1];
      userCounts := userCounts[lease := userCount + 1];
      assert (leases + [lease])[..|leases|] == leases;
      leases := leases + [lease];
      return Admitted;
    }

    /** `_release`, which the context manager calls once for each admitted request. No count is
        missing, so `_decrement` never fails. */
    method Release(project: string, user: string, ghost i: nat)
      requires Valid() && i < |leases| && leases[i] == (project, user)
      modifies this
      ensures Valid() && leases == old(leases[..i] + leases[i + 1..])
    {
      CountPositive(leases, i);
      forall p: string, u: Lease
        ensures CountProject(leases[..i] + leases[i + 1..], p) == CountProject(leases, p) - if project == p then 1 else 0
        ensures CountUser(leases[..i] + leases[i + 1..], u) == CountUser(leases, u) - if (project, user) == u then 1 else 0
      {
        CountWithout(leases, i, p, u);
      }
      projectCounts := Decremented(projectCounts, project);
      userCounts := Decremented(userCounts, (project, user));
      leases := leases[..i] + leases[i + 1..];
    }

    /** The project's count is the sum of the counts of its users. */
    lemma ProjectCountIsSum(project: string)
      requires Valid()
      ensures CountAt(projectCounts, project) == UserSum(leases, set u | u in userCounts && u.0 == project)
    {
      var users := set u | u in userCounts && u.0 == project;
      forall i | 0 <= i < |leases| && leases[i].0 == project
        ensures leases[i] in users
      {
        CountPositive(leases, i);
      }
      ProjectCountIsUserSum(leases, project, users);
    }

    /** When all requests have been released both maps are empty. */
    lemma EmptyWhenAllReleased()
      requires Valid() && leases == []
      ensures projectCounts == map[] && userCounts == map[]
    {
    }
  }
}
