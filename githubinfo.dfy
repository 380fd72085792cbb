/**
  The per-user and per-company tallies of a GitHub repository's issues,
  pull requests, comments and stars.

  In the source a user points to a shared `*company`; since `companyStats`
  holds exactly one company object per name and a company's `name` is its
  key, the model records that pointer as the company's name and keeps the
  records themselves as values in the two maps.
 */
module GitHubInfo {
  import opened Wrappers

  /** A company's counters. */
  datatype Company = Company(name: string, users: nat, issues: nat, prs: nat, comments: nat, stars: nat)

  /** A user's counters; `company` is the key of the company record the user points to, if any. */
  datatype User = User(name: string, company: Option<string>, issues: nat, prs: nat, comments: nat, star: bool)

  /** The fields of a GitHub user that `addUser` reads. */
  datatype GitHubUser = GitHubUser(login: string, company: Option<string>)

  /** The fields of a GitHub issue that `addIssue` reads. */
  datatype Issue = Issue(login: string, isPullRequest: bool)

  /** The company counters that are sums over the company's users. */
  datatype Counter = Users | Issues | PRs | Comments | Stars

  /** What user `u` contributes to counter `k` of company `c`. */
  function Weight(u: User, c: string, k: Counter): nat {
    if u.company != Some(c) then 0
    else match k
      case Users => 1
      case Issues => u.issues
      case PRs => u.prs
      case Comments => u.comments
      case Stars => if u.star then 1 else 0
  }

  /** The sum of `Weight` over all users. */
  ghost function Tally(users: map<string, User>, c: string, k: Counter): nat
    decreases |users|
  {
    if users == map[] then 0
    else
      var u :| u in users;
      Weight(users[u], c, k) + Tally(users - {u}, c, k)
  }

  /** The sum does not depend on which user is taken out first. */
  lemma {:induction false} TallyRemove(users: map<string, User>, c: string, k: Counter, u: string)
    requires u in users
    ensures Tally(users, c, k) == Weight(users[u], c, k) + Tally(users - {u}, c, k)
    decreases |users|
  {
    var v :| v in users && Tally(users, c, k) == Weight(users[v], c, k) + Tally(users - {v}, c, k);
    if v != u {
      TallyRemove(users - {v}, c, k, u);
      TallyRemove(users - {u}, c, k, v);
      assert users - {v} - {u} == users - {u} - {v};
    }
  }

  /** Replacing or adding one user changes each sum by the difference of that user's weights. */
  lemma TallyUpdate(users: map<string, User>, login: string, nu: User, c: string, k: Counter)
    ensures Tally(users[login := nu], c, k) + (if login in users then Weight(users[login], c, k) else 0)
         == Tally(users, c, k) + Weight(nu, c, k)
  {
    var updated := users[login := nu];
    TallyRemove(updated, c, k, login);
    if login in users {
      assert updated - {login} == users - {login};
      TallyRemove(users, c, k, login);
    } else {
      assert updated - {login} == users;
    }
  }

  /** Each company's counters agree with the users that point to it; stars count calls, so they only bound the starred users. */
  ghost predicate Consistent(co: Company, users: map<string, User>) {
    && co.users == Tally(users, co.name, Users)
    && co.issues == Tally(users, co.name, Issues)
    && co.prs == Tally(users, co.name, PRs)
    && co.comments == Tally(users, co.name, Comments)
    && co.stars >= Tally(users, co.name, Stars)
  }

  /** The tables' invariant: keys are names, every user's company exists, and every company's sums hold. */
  ghost predicate ValidTables(companies: map<string, Company>, users: map<string, User>) {
    && (forall c | c in companies :: companies[c].name == c)
    && (forall n | n in users :: users[n].name == n)
    && (forall n | n in users && users[n].company.Some? :: users[n].company.value in companies)
    && (forall c | c in companies :: Consistent(companies[c], users))
  }

  /** A company nobody points to has zero sums. */
  lemma {:induction false} TallyNone(users: map<string, User>, c: string, k: Counter)
    requires forall n | n in users :: users[n].company != Some(c)
    ensures Tally(users, c, k) == 0
    decreases |users|
  {
    if users != map[] {
      var u :| u in users && Tally(users, c, k) == Weight(users[u], c, k) + Tally(users - {u}, c, k);
      assert Weight(users[u], c, k) == 0;
      var rest := users - {u};
      assert forall n | n in rest :: rest[n] == users[n];
      TallyNone(rest, c, k);
    }
  }

  /**
    Adding a user with zero counters keeps the invariant when its company,
    created if new, gains exactly one user.
   */
  lemma InsertValid(companies: map<string, Company>, users: map<string, User>, nu: User, companies': map<string, Company>)
    requires ValidTables(companies, users)
    requires nu.name !in users
    requires nu.issues == 0 && nu.prs == 0 && nu.comments == 0 && !nu.star
    requires nu.company.None? ==> companies' == companies
    requires nu.company.Some? ==>
               var c := nu.company.value;
               var co := if c in companies then companies[c] else Company(c, 0, 0, 0, 0, 0);
               companies' == companies[c := co.(users := co.users + 1)]
    ensures ValidTables(companies', users[nu.name := nu])
  {
    var users' := users[nu.name := nu];
    forall d, k ensures Tally(users', d, k) == Tally(users, d, k) + Weight(nu, d, k) {
      TallyUpdate(users, nu.name, nu, d, k);
    }
    if nu.company.Some? && nu.company.value !in companies {
      forall k ensures Tally(users, nu.company.value, k) == 0 {
        TallyNone(users, nu.company.value, k);
      }
    }
  }

  /**
    Changing the counters of a user already present keeps the invariant
    when the user's company, if any, changes each counter by the same
    amount (and its stars by at least as much).
   */
  lemma BumpValid(companies: map<string, Company>, users: map<string, User>, nu: User, companies': map<string, Company>)
    requires ValidTables(companies, users)
    requires nu.name in users && nu.company == users[nu.name].company
    requires nu.company.None? ==> companies' == companies
    requires nu.company.Some? ==>
               var c := nu.company.value;
               var u := users[nu.name];
               && c in companies'
               && companies' == companies[c := companies'[c]]
               && companies'[c].name == c
               && companies'[c].users == companies[c].users
               && companies'[c].issues + u.issues == companies[c].issues + nu.issues
               && companies'[c].prs + u.prs == companies[c].prs + nu.prs
               && companies'[c].comments + u.comments == companies[c].comments + nu.comments
               && companies'[c].stars + (if u.star then 1 else 0) >= companies[c].stars + (if nu.star then 1 else 0)
    ensures ValidTables(companies', users[nu.name := nu])
  {
    var users' := users[nu.name := nu];
    forall d, k ensures Tally(users', d, k) + Weight(users[nu.name], d, k) == Tally(users, d, k) + Weight(nu, d, k) {
      TallyUpdate(users, nu.name, nu, d, k);
    }
  }

  /** The record `addUser` creates for a new user. */
  function NewUser(u: GitHubUser): (r: User)
    ensures r.name == u.login && r.company == u.company
    ensures r.issues == 0 && r.prs == 0 && r.comments == 0 && !r.star
  {
    User(u.login, u.company, 0, 0, 0, false)
  }

  /**
    The company table after a user of `company` is added: unchanged for a
    user without a company; otherwise the company is created on first
    sight and its user count goes up by one, and no other company changes.
   */
  function AddedCompanies(companies: map<string, Company>, company: Option<string>): (r: map<string, Company>)
    ensures company.None? ==> r == companies
    ensures company.Some? ==>
              var c := company.value;
              && r.Keys == companies.Keys + {c}
              && r[c].users == (if c in companies then companies[c].users else 0) + 1
              && (c in companies ==> r[c] == companies[c].(users := companies[c].users + 1))
              && (c !in companies ==> r[c] == Company(c, 1, 0, 0, 0, 0))
              && forall d | d in companies && d != c :: r[d] == companies[d]
  {
    if company.None? then companies
    else
      var c := company.value;
      var co := if c in companies then companies[c] else Company(c, 0, 0, 0, 0, 0);
      companies[c := co.(users := co.users + 1)]
  }

  /** `stats`: the company and user tables. */
  class Stats {
    var companyStats: map<string, Company>
    var userStats: map<string, User>

    ghost predicate Valid()
      reads this
    {
      ValidTables(companyStats, userStats)
    }

    /** `newStats`: empty tables. */
    constructor ()
      ensures Valid()
      ensures companyStats == map[] && userStats == map[]
    {
      companyStats := map[];
      userStats := map[];
    }

    /** `haveUser` */
    predicate HaveUser(name: string)
      reads this
    {
      name in userStats
    }

    /**
      `addUser`: a user already present is a panic (the tables stay as they
      were); otherwise the user is added with zero counters and, if it has a
      company, that company is created on first sight and its user count
      goes up by one.
     */
    method AddUser(u: GitHubUser) returns (panicked: bool)
      requires Valid()
      modifies this
      ensures Valid()
      ensures panicked <==> old(u.login in userStats)
      ensures panicked ==> companyStats == old(companyStats) && userStats == old(userStats)
      ensures !panicked ==> userStats == old(userStats)[u.login := NewUser(u)]
      ensures !panicked ==> companyStats == AddedCompanies(old(companyStats), u.company)
      ensures !panicked && u.company.None? ==> companyStats == old(companyStats)
      ensures !panicked && u.company.Some? ==>
                var c := u.company.value;
                && companyStats.Keys == old(companyStats).Keys + {c}
                && companyStats[c] == (if c in old(companyStats) then old(companyStats)[c] else Company(c, 0, 0, 0, 0, 0))
                                        .(users := (if c in old(companyStats) then old(companyStats)[c].users else 0) + 1)
                && forall d | d in old(companyStats) && d != c :: companyStats[d] == old(companyStats)[d]
    {
      if HaveUser(u.login) {
        return true;
      }
      var nu := NewUser(u);
      if u.company.Some? {
        var name := u.company.value;
        if name !in companyStats {
          companyStats := companyStats[name := Company(name, 0, 0, 0, 0, 0)];
        }
        var comp := companyStats[name];
        companyStats := companyStats[name := comp.(users := comp.users + 1)];
      }
      InsertValid(old(companyStats), userStats, nu, companyStats);
      userStats := userStats[u.login := nu];
      return false;
    }

    /**
      `addIssue`: the author's `prs` goes up by one for a pull request and
      `issues` otherwise, and the same counter of the author's company if it
      has one. An author who is not in the table is a nil dereference (a panic).
     */
    method AddIssue(issue: Issue) returns (panicked: bool)
      requires Valid()
      modifies this
      ensures Valid()
      ensures panicked <==> old(issue.login !in userStats)
      ensures panicked ==> companyStats == old(companyStats) && userStats == old(userStats)
      ensures !panicked ==>
                var u := old(userStats)[issue.login];
                && userStats == old(userStats)[issue.login :=
                     if issue.isPullRequest then u.(prs := u.prs + 1) else u.(issues := u.issues + 1)]
                && (u.company.None? ==> companyStats == old(companyStats))
                && (u.company.Some? ==>
                      var co := old(companyStats)[u.company.value];
                      companyStats == old(companyStats)[u.company.value :=
                        if issue.isPullRequest then co.(prs := co.prs + 1) else co.(issues := co.issues + 1)])
    {
      if issue.login !in userStats {
        return true;
      }
      var u := userStats[issue.login];
      var nu := if issue.isPullRequest then u.(prs := u.prs + 1) else u.(issues := u.issues + 1);
      if issue.isPullRequest {
        if u.company.Some? {
          var co := companyStats[u.company.value];
          companyStats := companyStats[u.company.value := co.(prs := co.prs + 1)];
        }
      } else {
        if u.company.Some? {
          var co := companyStats[u.company.value];
          companyStats := companyStats[u.company.value := co.(issues := co.issues + 1)];
        }
      }
      BumpValid(old(companyStats), userStats, nu, companyStats);
      userStats := userStats[issue.login := nu];
      return false;
    }

    /** `addComment`: the author's `comments` goes up by one, and the company's if it has one. */
    method AddComment(login: string) returns (panicked: bool)
      requires Valid()
      modifies this
      ensures Valid()
      ensures panicked <==> old(login !in userStats)
      ensures panicked ==> companyStats == old(companyStats) && userStats == old(userStats)
      ensures !panicked ==>
                var u := old(userStats)[login];
                && userStats == old(userStats)[login := u.(comments := u.comments + 1)]
                && (u.company.None? ==> companyStats == old(companyStats))
                && (u.company.Some? ==>
                      var co := old(companyStats)[u.company.value];
                      companyStats == old(companyStats)[u.company.value := co.(comments := co.comments + 1)])
    {
      if login !in userStats {
        return true;
      }
      var u := userStats[login];
      var nu := u.(comments := u.comments + 1);
      if u.company.Some? {
        var co := companyStats[u.company.value];
        companyStats := companyStats[u.company.value := co.(comments := co.comments + 1)];
      }
      BumpValid(old(companyStats), userStats, nu, companyStats);
      userStats := userStats[login := nu];
      return false;
    }

    /** `addStar`: the user's `star` becomes true, and the company's `stars` goes up by one on every call. */
    method AddStar(name: string) returns (panicked: bool)
      requires Valid()
      modifies this
      ensures Valid()
      ensures panicked <==> old(name !in userStats)
      ensures panicked ==> companyStats == old(companyStats) && userStats == old(userStats)
      ensures !panicked ==>
                var u := old(userStats)[name];
                && userStats == old(userStats)[name := u.(star := true)]
                && (u.company.None? ==> companyStats == old(companyStats))
                && (u.company.Some? ==>
                      var co := old(companyStats)[u.company.value];
                      companyStats == old(companyStats)[u.company.value := co.(stars := co.stars + 1)])
    {
      if name !in userStats {
        return true;
      }
      var u := userStats[name];
      var nu := u.(star := true);
      if u.company.Some? {
        var co := companyStats[u.company.value];
        companyStats := companyStats[u.company.value := co.(stars := co.stars + 1)];
      }
      BumpValid(old(companyStats), userStats, nu, companyStats);
      userStats := userStats[name := nu];
      return false;
    }

    /**
      `ensureUser`: nothing happens for a user already present; otherwise
      the user fetched from GitHub (the parameter `fetched`) is added, and a
      failed fetch is returned as the error.
     */
    method EnsureUser(name: string, fetched: Result<GitHubUser, string>) returns (err: Option<string>, panicked: bool)
      requires Valid()
      modifies this
      ensures Valid()
      ensures old(name in userStats) ==> err == None && !panicked && unchanged(this)
      ensures old(name !in userStats) && fetched.Failure? ==> err == Some(fetched.error) && !panicked && unchanged(this)
      ensures old(name !in userStats) && fetched.Success? ==>
                err == None && (panicked <==> old(fetched.value.login in userStats))
      ensures old(name !in userStats) && fetched.Success? && panicked ==>
                companyStats == old(companyStats) && userStats == old(userStats)
      ensures old(name !in userStats) && fetched.Success? && !panicked ==>
                && userStats == old(userStats)[fetched.value.login := NewUser(fetched.value)]
                && companyStats == AddedCompanies(old(companyStats), fetched.value.company)
      ensures old(name !in userStats) && fetched.Success? && fetched.value.login == name ==>
                && !panicked && HaveUser(name)
                && userStats == old(userStats)[name := NewUser(fetched.value)]
                && companyStats == AddedCompanies(old(companyStats), fetched.value.company)
    {
      if HaveUser(name) {
        return None, false;
      }
      if fetched.Failure? {
        return Some(fetched.error), false;
      }
      panicked := AddUser(fetched.value);
      err := None;
    }
  }
}
