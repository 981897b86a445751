/** What each handler of the control plane does to the tables, row by row: whose rows it adds or removes, with which
    contents, and what stays as it was. */
module Effects {
  import opened Wrappers
  import opened Text
  import opened Tables
  import opened Rbac

  /** The rows with some ids are gone, and the others are as they were. */
  ghost predicate Removed<T>(before: map<Id, T>, after: map<Id, T>, gone: set<Id>) {
    && (forall i :: i in after <==> i in before && i !in gone)
    && (forall i | i in after :: after[i] == before[i])
  }

  /** One row is new if it was accepted, and the others are as they were. */
  ghost predicate Added<T>(before: map<Id, T>, after: map<Id, T>, accepted: bool, id: Id, row: T) {
    && (forall i :: i in after <==> i in before || (accepted && i == id))
    && (forall i | i in after :: after[i] == if accepted && i == id then row else before[i])
  }

  /** The grants that are left are those whose user, cluster and namespace are. */
  ghost predicate Cascaded(before: Db, after: Db) {
    && NoDuplicates(after.grants)
    && forall g :: g in after.grants <==> g in before.grants && References(after, g)
  }

  ghost predicate SameClusters(before: Db, after: Db) {
    before.clusters == after.clusters && before.namespaces == after.namespaces
  }

  /** The users of a tenant that have this id. */
  ghost function UsersOf(db: Db, tenant: Id, id: Id): set<Id> {
    set u | u in db.users && u == id && db.users[u].tenant == tenant
  }

  ghost function ClustersOf(db: Db, tenant: Id, id: Id): set<Id> {
    set c | c in db.clusters && c == id && db.clusters[c].tenant == tenant
  }

  ghost function NamespacesIn(db: Db, clusters: set<Id>): set<Id> {
    set n | n in db.namespaces && db.namespaces[n].cluster in clusters
  }

  lemma FilteredIsDistinct(db: Db, keep: Grant -> bool)
    requires Sound(db)
    ensures NoDuplicates(Filter(db.grants, keep))
  {
    UniqueIndexesMeanDistinct(db.grants);
    FilterKeepsDistinct(db.grants, keep);
  }

  /** Deleting a user takes the tenant's user of that id, and the grants of that user, and nothing else. */
  lemma DeleteUserEffect(s: State, tenant: Id, id: Id)
    requires Sound(s.db)
    ensures
      var after := Apply(s, DoDeleteUser(tenant, id));
      && Removed(s.db.users, after.db.users, UsersOf(s.db, tenant, id)) && Cascaded(s.db, after.db)
      && SameClusters(s.db, after.db) && after.db.tenants == s.db.tenants && after.puts == s.puts
  {
    UniqueIndexesMeanDistinct(s.db.grants);
    FilteredIsDistinct(s.db, NotOf(id));
    hide UniqueIndexes, NoDuplicates;
  }

  lemma ClusterCascades(db: Db, tenant: Id, id: Id)
    requires Sound(db)
    ensures Cascaded(db, DeleteCluster(db, tenant, id))
  {
    var doomed := set n | n in db.namespaces && db.namespaces[n].cluster == id;
    UniqueIndexesMeanDistinct(db.grants);
    FilteredIsDistinct(db, OffCluster(id, doomed));
    hide UniqueIndexes, NoDuplicates, UniqueRows, UniqueEmails;
  }

  /** Deleting a cluster takes the tenant's cluster of that id, its namespaces, and the grants on either. */
  lemma DeleteClusterEffect(s: State, tenant: Id, id: Id)
    requires Sound(s.db)
    ensures
      var after, gone := Apply(s, DoDeleteCluster(tenant, id)), ClustersOf(s.db, tenant, id);
      && Removed(s.db.clusters, after.db.clusters, gone)
      && Removed(s.db.namespaces, after.db.namespaces, NamespacesIn(s.db, gone)) && Cascaded(s.db, after.db)
      && after.db.users == s.db.users && after.db.tenants == s.db.tenants && after.puts == s.puts
  {
    ClusterCascades(s.db, tenant, id);
    hide Cascaded, Sound;
  }

  /** A new cluster belongs to the caller's tenant, under the name asked for; it is refused exactly without a name,
      without the tenant, or when the tenant has one of that name. */
  lemma CreateClusterEffect(s: State, tenant: Id, name: string, id: Id)
    requires Sound(s.db) && id !in s.db.issued
    ensures
      var after := Apply(s, DoCreateCluster(tenant, name, id));
      var accepted := name != "" && tenant in s.db.tenants &&
        forall c | c in s.db.clusters :: s.db.clusters[c].tenant != tenant || s.db.clusters[c].name != name;
      && Added(s.db.clusters, after.db.clusters, accepted, id, Cluster(tenant, name))
      && after.db.namespaces == s.db.namespaces && after.db.users == s.db.users && after.db.grants == s.db.grants
      && after.db.tenants == s.db.tenants && after.puts == s.puts
  {
    assert forall c | c in s.db.clusters :: s.db.clusters[c] == Cluster(s.db.clusters[c].tenant, s.db.clusters[c].name);
    if Cluster(tenant, name) in s.db.clusters.Values {
      var c :| c in s.db.clusters && s.db.clusters[c] == Cluster(tenant, name);
    }
    assert forall c | c in s.db.clusters :: s.db.clusters[c] in s.db.clusters.Values;
  }

  /** A new user belongs to the caller's tenant, with the address and the role asked for; it is refused exactly without
      an address, without the tenant, or when the tenant has a user of that address. */
  lemma CreateUserEffect(s: State, tenant: Id, id: Id, email: string, role: Role)
    requires Sound(s.db) && id !in s.db.issued
    ensures
      var after := Apply(s, DoCreateUser(tenant, id, email, role));
      var accepted := email != "" && tenant in s.db.tenants &&
        forall u | u in s.db.users :: s.db.users[u].tenant != tenant || s.db.users[u].email != email;
      && Added(s.db.users, after.db.users, accepted, id, User(tenant, email, role))
      && SameClusters(s.db, after.db) && after.db.grants == s.db.grants
      && after.db.tenants == s.db.tenants && after.puts == s.puts
  {}

  /** A signup adds a tenant and its administrator. */
  lemma SignUpEffect(s: State, tenant: Id, user: Id, email: string)
    requires Sound(s.db) && tenant !in s.db.issued && user !in s.db.issued && tenant != user
    ensures
      var after := Apply(s, DoSignUp(tenant, user, email));
      && after.db.tenants == s.db.tenants + {tenant}
      && Added(s.db.users, after.db.users, true, user, User(tenant, email, Admin))
      && SameClusters(s.db, after.db) && after.db.grants == s.db.grants && after.puts == s.puts
  {}

  /** The ids that a report hands out are new. */
  ghost predicate AreNew(db: Db, ids: seq<Id>) { NoDuplicates(ids) && forall i | i in ids :: i !in db.issued }

  lemma {:induction false} UpsertedRows(db: Db, cluster: Id, names: seq<string>, ids: seq<Id>, n: Id)
    requires |ids| == |names| && AreNew(db, ids) && db.namespaces.Keys <= db.issued
    requires n in UpsertAll(db, cluster, names, ids).namespaces && n !in db.namespaces
    ensures exists i | 0 <= i < |names| ::
      ids[i] == n && UpsertAll(db, cluster, names, ids).namespaces[n] == Namespace(cluster, names[i])
    decreases |names|
  {
    if names != [] {
      var last := |names| - 1;
      var before := UpsertAll(db, cluster, names[..last], ids[..last]);
      ReportIsComplete(db, cluster, names[..last], ids[..last]);
      if n in before.namespaces {
        UpsertedRows(db, cluster, names[..last], ids[..last], n);
        var i :| 0 <= i < last && ids[..last][i] == n && before.namespaces[n] == Namespace(cluster, names[..last][i]);
        assert ids[i] == n && names[i] == names[..last][i];
      } else {
        assert ids[last] == n;
      }
    }
  }

  lemma {:induction false} UpsertsTouchNothingElse(db: Db, cluster: Id, names: seq<string>, ids: seq<Id>)
    requires |ids| == |names|
    ensures
      var after := UpsertAll(db, cluster, names, ids);
      after.clusters == db.clusters && after.users == db.users && after.grants == db.grants &&
        after.tenants == db.tenants
    decreases |names|
  {
    if names != [] { UpsertsTouchNothingElse(db, cluster, names[..|names| - 1], ids[..|names| - 1]); }
  }

  /** A report for a cluster that exists keeps every namespace, gives the cluster exactly one namespace of each reported
      name, and adds no other; a report for any other cluster changes nothing. */
  lemma ReportEffect(s: State, cluster: Id, names: seq<string>, ids: seq<Id>)
    requires Sound(s.db) && |ids| == |names| && AreNew(s.db, ids)
    ensures
      var after := Apply(s, DoReport(cluster, names, ids));
      && (cluster !in s.db.clusters ==> after == s)
      && (forall n | n in s.db.namespaces :: n in after.db.namespaces && after.db.namespaces[n] == s.db.namespaces[n])
      && (forall n | n in after.db.namespaces && n !in s.db.namespaces ::
           exists i | 0 <= i < |names| :: ids[i] == n && after.db.namespaces[n] == Namespace(cluster, names[i]))
      && (cluster in s.db.clusters ==> forall name | name in names ::
           exists n | n in after.db.namespaces :: after.db.namespaces[n] == Namespace(cluster, name))
      && UniqueRows(after.db.namespaces)
      && after.db.clusters == s.db.clusters && after.db.users == s.db.users && after.db.grants == s.db.grants
      && after.db.tenants == s.db.tenants && after.puts == s.puts
  {
    if cluster in s.db.clusters {
      ReportIsComplete(s.db, cluster, names, ids);
      UpsertAllKeeps(s.db, cluster, names, ids);
      UpsertsTouchNothingElse(s.db, cluster, names, ids);
      var after := UpsertAll(s.db, cluster, names, ids);
      hide UpsertAll, UniqueIndexes;
      forall n | n in after.namespaces && n !in s.db.namespaces
        ensures exists i | 0 <= i < |names| :: ids[i] == n && after.namespaces[n] == Namespace(cluster, names[i]) {
        UpsertedRows(s.db, cluster, names, ids, n);
      }
    }
  }

  /* A PUT that may be granted is. */

  /** The user and everything the request names are there, in the tenant and in the cluster named with them. */
  ghost predicate IsOwned(db: Db, tenant: Id, user: Id, request: seq<GrantRequest>) {
    && user in db.users && db.users[user].tenant == tenant
    && forall g | g in request ::
      && g.cluster in db.clusters && db.clusters[g.cluster].tenant == tenant
      && (g.namespace.Some? ==>
           g.namespace.value in db.namespaces && db.namespaces[g.namespace.value].cluster == g.cluster)
  }

  predicate IsPutStep(step: Step) {
    step.PutStart? || step.PutCheckUser? || step.PutCheckCluster? || step.PutCheckNamespace? || step.PutCommit? ||
    step.PutFail?
  }

  /** A step of another handler, or of another PUT. */
  predicate IsOfOthers(step: Step, put: nat) { !IsPutStep(step) || step.put != put }

  function After(s: State, steps: seq<Step>): State
    decreases |steps|
  {
    if steps == [] then s else Apply(After(s, steps[..|steps| - 1]), steps[|steps| - 1])
  }

  lemma {:induction false} OthersLeavePut(s: State, steps: seq<Step>, put: nat)
    requires put in s.puts && forall step | step in steps :: IsOfOthers(step, put)
    ensures put in After(s, steps).puts && After(s, steps).puts[put] == s.puts[put]
    decreases |steps|
  {
    if steps != [] {
      var last := steps[|steps| - 1];
      assert last in steps;
      OthersLeavePut(s, steps[..|steps| - 1], put);
    }
  }

  /** The check of a request that comes after the ones made: the user, and then, for one grant after another, its
      cluster
      and its namespace. */
  function CheckAt(put: nat, k: nat): Step {
    if k == 0 then PutCheckUser(put) else if k % 2 == 1 then PutCheckCluster(put) else PutCheckNamespace(put)
  }

  /** The PUT after its first `k` checks. */
  function PutAt(tenant: Id, user: Id, request: seq<GrantRequest>, k: nat): Put {
    if k == 0 then Put(tenant, user, request, false, 0, false)
    else Put(tenant, user, request, true, (k - 1) / 2, k % 2 == 0)
  }

  /** The checks of a PUT, with any steps of others in front of each. */
  function Checking(s: State, put: nat, gaps: seq<seq<Step>>): State
    decreases |gaps|
  {
    if gaps == [] then s
    else Apply(After(Checking(s, put, gaps[..|gaps| - 1]), gaps[|gaps| - 1]), CheckAt(put, |gaps| - 1))
  }

  lemma OneCheckPasses(s: State, put: nat, tenant: Id, user: Id, request: seq<GrantRequest>, k: nat)
    requires put in s.puts && s.puts[put] == PutAt(tenant, user, request, k) && k < 1 + 2 * |request|
    requires IsOwned(s.db, tenant, user, request)
    ensures
      var after := Apply(s, CheckAt(put, k));
      put in after.puts && after.puts[put] == PutAt(tenant, user, request, k + 1) && after.db == s.db
  {
    if k > 0 { assert request[(k - 1) / 2] in request; }
  }

  /** A check made out of turn changes nothing. */
  lemma OtherChecksWait(s: State, put: nat, tenant: Id, user: Id, request: seq<GrantRequest>, k: nat, step: Step)
    requires put in s.puts && s.puts[put] == PutAt(tenant, user, request, k) && k <= 1 + 2 * |request|
    requires step in {PutCheckUser(put), PutCheckCluster(put), PutCheckNamespace(put)}
    requires k < 1 + 2 * |request| ==> step != CheckAt(put, k)
    ensures Apply(s, step) == s
  {
    assert s.puts[put := s.puts[put]] == s.puts;
  }

  /** What the next check of a PUT finds wrong: another tenant's user, another tenant's cluster, or a namespace that is
      not in the cluster named with it. */
  ghost predicate IsRefused(db: Db, tenant: Id, user: Id, request: seq<GrantRequest>, k: nat)
    requires k < 1 + 2 * |request|
  {
    if k == 0 then !(user in db.users && db.users[user].tenant == tenant)
    else
      var g := request[(k - 1) / 2];
      var owned := g.cluster in db.clusters && db.clusters[g.cluster].tenant == tenant;
      var named := g.namespace.Some? ==>
        g.namespace.value in db.namespaces && db.namespaces[g.namespace.value].cluster == g.cluster;
      if k % 2 == 1 then !owned else g.namespace.Some? && !(owned && named)
  }

  /** A refused PUT is over, with the tables as they were; one that is not goes on to its next check. */
  lemma RefusedPutEnds(s: State, put: nat, tenant: Id, user: Id, request: seq<GrantRequest>, k: nat)
    requires put in s.puts && s.puts[put] == PutAt(tenant, user, request, k) && k < 1 + 2 * |request|
    ensures
      var after := Apply(s, CheckAt(put, k));
      && after.db == s.db
      && after.puts == if IsRefused(s.db, tenant, user, request, k) then s.puts - {put}
        else s.puts[put := PutAt(tenant, user, request, k + 1)]
  {}

  /** A PUT is over once it commits or fails, and does neither twice; until all its checks have passed it cannot
      commit. */
  lemma PutEndsOnce(s: State, put: nat, tenant: Id, user: Id, request: seq<GrantRequest>, k: nat)
    requires put in s.puts && s.puts[put] == PutAt(tenant, user, request, k) && k <= 1 + 2 * |request|
    ensures Apply(s, PutFail(put)) == s.(puts := s.puts - {put})
    ensures k < 1 + 2 * |request| ==> Apply(s, PutCommit(put)) == s
    ensures k == 1 + 2 * |request| ==> Apply(s, PutCommit(put)).puts == s.puts - {put}
    ensures forall step | step in [PutCommit(put), PutFail(put)] ::
      Apply(s.(puts := s.puts - {put}), step) == s.(puts := s.puts - {put})
  {
    assert s.puts - {put} - {put} == s.puts - {put};
  }

  /** A run is one step after another, from empty tables with no PUT under way. */
  lemma {:induction false} RunGoesOn(steps: seq<Step>, more: seq<Step>)
    ensures Run([]) == State(EMPTY, map[]) && Run(steps + more) == After(Run(steps), more)
    decreases |more|
  {
    hide Apply;
    if more == [] {
      assert steps + more == steps;
    } else {
      var n, all := |more| - 1, steps + more;
      RunGoesOn(steps, more[..n]);
      assert all[..|all| - 1] == steps + more[..n] && all[|all| - 1] == more[n];
    }
  }

  ghost predicate AreOfOthers(gaps: seq<seq<Step>>, put: nat) {
    forall gap, step | gap in gaps && step in gap :: IsOfOthers(step, put)
  }

  /** At each check everything is as it has to be. */
  ghost predicate OwnedThroughout(s: State, put: nat, gaps: seq<seq<Step>>, tenant: Id, user: Id,
      request: seq<GrantRequest>) {
    forall k | 0 <= k < |gaps| :: IsOwned(After(Checking(s, put, gaps[..k]), gaps[k]).db, tenant, user, request)
  }

  lemma ThroughoutPrefix(s: State, put: nat, gaps: seq<seq<Step>>, tenant: Id, user: Id, request: seq<GrantRequest>)
    requires gaps != [] && OwnedThroughout(s, put, gaps, tenant, user, request) && AreOfOthers(gaps, put)
    ensures
      var n := |gaps| - 1;
      && OwnedThroughout(s, put, gaps[..n], tenant, user, request) && AreOfOthers(gaps[..n], put)
      && IsOwned(After(Checking(s, put, gaps[..n]), gaps[n]).db, tenant, user, request)
      && forall step | step in gaps[n] :: IsOfOthers(step, put)
  {
    var n := |gaps| - 1;
    hide After, Checking, IsOwned, IsOfOthers;
    assert gaps[n] in gaps && forall k | 0 <= k < n :: gaps[..n][..k] == gaps[..k] && gaps[..n][k] == gaps[k];
  }

  lemma NothingChecked(s: State, put: nat)
    ensures Checking(s, put, []) == s
  {}

  lemma CheckingUnfolds(s: State, put: nat, gaps: seq<seq<Step>>)
    requires gaps != []
    ensures
      var n := |gaps| - 1;
      Checking(s, put, gaps) == Apply(After(Checking(s, put, gaps[..n]), gaps[n]), CheckAt(put, n))
  {
    hide Apply, After, CheckAt;
  }

  /** One check after any steps of others. */
  lemma RoundPasses(s: State, put: nat, gap: seq<Step>, tenant: Id, user: Id, request: seq<GrantRequest>, k: nat)
    requires put in s.puts && s.puts[put] == PutAt(tenant, user, request, k) && k < 1 + 2 * |request|
    requires forall step | step in gap :: IsOfOthers(step, put)
    requires IsOwned(After(s, gap).db, tenant, user, request)
    ensures
      var after := Apply(After(s, gap), CheckAt(put, k));
      put in after.puts && after.puts[put] == PutAt(tenant, user, request, k + 1)
  {
    hide After, Apply, IsOwned, IsOfOthers, CheckAt, PutAt;
    OthersLeavePut(s, gap, put);
    OneCheckPasses(After(s, gap), put, tenant, user, request, k);
  }

  lemma {:induction false} ChecksPass(s: State, put: nat, gaps: seq<seq<Step>>, tenant: Id, user: Id,
      request: seq<GrantRequest>)
    requires put in s.puts && s.puts[put] == PutAt(tenant, user, request, 0) && |gaps| <= 1 + 2 * |request|
    requires AreOfOthers(gaps, put) && OwnedThroughout(s, put, gaps, tenant, user, request)
    ensures
      var after := Checking(s, put, gaps);
      put in after.puts && after.puts[put] == PutAt(tenant, user, request, |gaps|)
    decreases |gaps|
  {
    hide After, Apply, Checking, IsOwned, IsOfOthers, CheckAt, PutAt, OwnedThroughout, AreOfOthers;
    if gaps == [] {
      NothingChecked(s, put);
    } else {
      var n := |gaps| - 1;
      CheckingUnfolds(s, put, gaps);
      ThroughoutPrefix(s, put, gaps, tenant, user, request);
      ChecksPass(s, put, gaps[..n], tenant, user, request);
      RoundPasses(Checking(s, put, gaps[..n]), put, gaps[n], tenant, user, request, n);
    }
  }

  /** Main theorem: a PUT whose user, clusters and namespaces are its tenant's whenever it looks passes all its checks,
      whatever other requests do in between; and when they still are at the commit, and no grant is requested twice, the
      user has exactly the requested grants afterwards. */
  lemma OwnedPutCommits(s: State, put: nat, gaps: seq<seq<Step>>, tenant: Id, user: Id, request: seq<GrantRequest>)
    requires put !in s.puts && |gaps| == 1 + 2 * |request| && NoDuplicates(request) && AreOfOthers(gaps, put)
    requires
      var started := Apply(s, PutStart(put, tenant, user, request));
      && OwnedThroughout(started, put, gaps, tenant, user, request)
      && IsOwned(Checking(started, put, gaps).db, tenant, user, request)
    ensures
      var ready := Checking(Apply(s, PutStart(put, tenant, user, request)), put, gaps);
      && put in ready.puts && ReadyToCommit(ready.puts[put])
      && GrantsOf(Apply(ready, PutCommit(put)).db.grants, user) == RequestedGrants(user, request)
  {
    var started := Apply(s, PutStart(put, tenant, user, request));
    hide Checking, IsOwned, CanReplace, GrantsOf, After, NoDuplicates, OwnedThroughout, AreOfOthers;
    ChecksPass(started, put, gaps, tenant, user, request);
    var ready := Checking(started, put, gaps);
    OwnedCanReplace(ready.db, tenant, user, request);
    CommitIsAllOrNothing(ready, put);
  }

  lemma OwnedCanReplace(db: Db, tenant: Id, user: Id, request: seq<GrantRequest>)
    requires IsOwned(db, tenant, user, request) && NoDuplicates(request)
    ensures CanReplace(db, user, request)
  {
    var wanted := RequestedGrants(user, request);
    forall g | g in wanted ensures References(db, g) {
      var i :| 0 <= i < |wanted| && wanted[i] == g;
      assert request[i] in request;
    }
  }
}
