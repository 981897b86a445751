/** Every interleaving of the handlers that touch the control-plane tables. A PUT of a user's access
    (backend/cmd/rbac-service/main.go, handlePutUserAccess) is not one step: its ownership checks are
    separate reads, and anything can happen between them and the transaction that replaces the rows. */
module Rbac {
  import opened Wrappers
  import opened Text
  import opened Tables

  /** A PUT in flight: which of its checks have passed. */
  datatype Put = Put(tenant: Id, user: Id, request: seq<GrantRequest>, userChecked: bool, checked: nat,
    clusterChecked: bool)

  datatype State = State(db: Db, puts: map<nat, Put>)

  datatype Step =
    | DoSignUp(tenant: Id, user: Id, email: string)
    | DoCreateCluster(tenant: Id, name: string, id: Id)
    | DoDeleteCluster(tenant: Id, id: Id)
    | DoReport(cluster: Id, names: seq<string>, ids: seq<Id>)
    | DoCreateUser(tenant: Id, id: Id, email: string, role: Role)
    | DoDeleteUser(tenant: Id, id: Id)
    | PutStart(put: nat, tenant: Id, user: Id, request: seq<GrantRequest>)
    | PutCheckUser(put: nat)
    | PutCheckCluster(put: nat)
    | PutCheckNamespace(put: nat)
    | PutCommit(put: nat)
    | PutFail(put: nat)

  const INITIAL := State(EMPTY, map[])

  function Finish(s: State, put: nat): State {
    s.(puts := s.puts - {put})
  }

  function CheckUser(db: Db, p: Put): Option<Put> {
    if p.userChecked then Some(p)
    else if p.user in db.users && db.users[p.user].tenant == p.tenant then Some(p.(userChecked := true))
    else None
  }

  function CheckCluster(db: Db, p: Put): Option<Put> {
    if !p.userChecked || p.clusterChecked || p.checked >= |p.request| then Some(p)
    else
      var c := p.request[p.checked].cluster;
      if c in db.clusters && db.clusters[c].tenant == p.tenant then Some(p.(clusterChecked := true)) else None
  }

  /** Reads nothing when the request names no namespace. */
  function CheckNamespace(db: Db, p: Put): Option<Put> {
    if !p.clusterChecked || p.checked >= |p.request| then Some(p)
    else
      var g := p.request[p.checked];
      if g.namespace.None? then Some(p.(checked := p.checked + 1, clusterChecked := false))
      else
        var n := g.namespace.value;
        if n in db.namespaces && db.namespaces[n].cluster == g.cluster && g.cluster in db.clusters &&
          db.clusters[g.cluster].tenant == p.tenant
        then Some(p.(checked := p.checked + 1, clusterChecked := false))
        else None
  }

  /** A failed check ends the PUT with an error response. */
  function Checked(s: State, put: nat, outcome: Option<Put>): State {
    match outcome
    case Some(p) => s.(puts := s.puts[put := p])
    case None => Finish(s, put)
  }

  predicate ReadyToCommit(p: Put) {
    p.userChecked && p.checked == |p.request|
  }

  /** The handlers that run as one transaction. */
  function TablesAfter(db: Db, step: Step): Db {
    match step
    case DoSignUp(tenant, user, email) => SignUp(db, tenant, user, email)
    case DoCreateCluster(tenant, name, id) => CreateCluster(db, tenant, name, id)
    case DoDeleteCluster(tenant, id) => DeleteCluster(db, tenant, id)
    case DoReport(cluster, names, ids) => if |ids| == |names| then ReportNamespaces(db, cluster, names, ids) else db
    case DoCreateUser(tenant, id, email, role) => CreateUser(db, tenant, id, email, role)
    case DoDeleteUser(tenant, id) => DeleteUser(db, tenant, id)
    case _ => db
  }

  /** A step that is not enabled changes nothing. */
  function Apply(s: State, step: Step): State {
    match step
    case PutStart(put, tenant, user, request) =>
      if put in s.puts then s else s.(puts := s.puts[put := Put(tenant, user, request, false, 0, false)])
    case PutCheckUser(put) => if put in s.puts then Checked(s, put, CheckUser(s.db, s.puts[put])) else s
    case PutCheckCluster(put) => if put in s.puts then Checked(s, put, CheckCluster(s.db, s.puts[put])) else s
    case PutCheckNamespace(put) => if put in s.puts then Checked(s, put, CheckNamespace(s.db, s.puts[put])) else s
    case PutCommit(put) =>
      if put in s.puts && ReadyToCommit(s.puts[put])
      then Finish(s.(db := ReplaceGrants(s.db, s.puts[put].user, s.puts[put].request)), put)
      else s
    case PutFail(put) => Finish(s, put)
    case _ => s.(db := TablesAfter(s.db, step))
  }

  function Run(steps: seq<Step>): State
    decreases |steps|
  {
    if steps == [] then INITIAL else Apply(Run(steps[..|steps| - 1]), steps[|steps| - 1])
  }

  /* What a check that passed earlier is still worth. */

  ghost predicate KnownUser(db: Db, tenant: Id, u: Id) {
    u in db.issued && (u in db.users ==> db.users[u].tenant == tenant)
  }

  ghost predicate KnownCluster(db: Db, tenant: Id, c: Id) {
    c in db.issued && (c in db.clusters ==> db.clusters[c].tenant == tenant)
  }

  ghost predicate KnownGrant(db: Db, tenant: Id, g: GrantRequest) {
    && KnownCluster(db, tenant, g.cluster)
    && (g.namespace.Some? ==>
          g.namespace.value in db.issued &&
          (g.namespace.value in db.namespaces ==> db.namespaces[g.namespace.value].cluster == g.cluster))
  }

  ghost predicate PutSound(db: Db, p: Put) {
    && p.checked <= |p.request|
    && (p.userChecked ==> KnownUser(db, p.tenant, p.user))
    && (forall i | 0 <= i < p.checked :: KnownGrant(db, p.tenant, p.request[i]))
    && (p.clusterChecked ==> p.checked < |p.request| && KnownCluster(db, p.tenant, p.request[p.checked].cluster))
  }

  ghost predicate Inv(s: State) {
    Sound(s.db) && forall put | put in s.puts :: PutSound(s.db, s.puts[put])
  }

  lemma PutStaysSound(db: Db, later: Db, p: Put)
    requires PutSound(db, p) && Evolves(db, later)
    ensures PutSound(later, p)
  {
    forall i | 0 <= i < p.checked ensures KnownGrant(later, p.tenant, p.request[i]) {
      assert KnownGrant(db, p.tenant, p.request[i]);
    }
  }

  lemma ValidatedRequestIsLinked(db: Db, p: Put)
    requires PutSound(db, p) && ReadyToCommit(p)
    ensures forall g | g in RequestedGrants(p.user, p.request) && References(db, g) :: Linked(db, g)
  {
    var wanted := RequestedGrants(p.user, p.request);
    forall i | 0 <= i < |wanted| && References(db, wanted[i]) ensures Linked(db, wanted[i]) {
      assert KnownGrant(db, p.tenant, p.request[i]);
    }
  }

  lemma NothingKeeps(db: Db)
    requires Sound(db)
    ensures Keeps(db, db)
  {}

  lemma TenantStepKeeps(db: Db, step: Step)
    requires Sound(db) && (step.DoCreateCluster? || step.DoDeleteCluster? || step.DoReport?)
    ensures Keeps(db, TablesAfter(db, step))
  {
    match step {
      case DoCreateCluster(tenant, name, id) => CreateClusterKeeps(db, tenant, name, id);
      case DoDeleteCluster(tenant, id) => DeleteClusterKeeps(db, tenant, id);
      case DoReport(cluster, names, ids) =>
        NothingKeeps(db);
        if |ids| == |names| && cluster in db.clusters { UpsertAllKeeps(db, cluster, names, ids); }
    }
  }

  lemma UserStepKeeps(db: Db, step: Step)
    requires Sound(db) && (step.DoSignUp? || step.DoCreateUser? || step.DoDeleteUser?)
    ensures Keeps(db, TablesAfter(db, step))
  {
    if step.DoSignUp? {
      SignUpKeeps(db, step.tenant, step.user, step.email);
    } else if step.DoCreateUser? {
      CreateUserKeeps(db, step.tenant, step.id, step.email, step.role);
    } else {
      DeleteUserKeeps(db, step.tenant, step.id);
    }
  }

  /** A step that is not a commit keeps the tables sound and adds no grant. */
  lemma OtherStepKeeps(s: State, step: Step)
    requires Sound(s.db) && !step.PutCommit?
    ensures Keeps(s.db, Apply(s, step).db)
  {
    assert Apply(s, step).db == TablesAfter(s.db, step);
    if step.DoCreateCluster? || step.DoDeleteCluster? || step.DoReport? {
      TenantStepKeeps(s.db, step);
    } else if step.DoSignUp? || step.DoCreateUser? || step.DoDeleteUser? {
      UserStepKeeps(s.db, step);
    } else {
      NothingKeeps(s.db);
    }
  }

  lemma CommitEvolves(s: State, put: nat)
    requires Inv(s)
    ensures Sound(Apply(s, PutCommit(put)).db) && Evolves(s.db, Apply(s, PutCommit(put)).db)
  {
    if put in s.puts && ReadyToCommit(s.puts[put]) {
      ValidatedRequestIsLinked(s.db, s.puts[put]);
      ReplaceGrantsKeeps(s.db, s.puts[put].user, s.puts[put].request);
    } else {
      NothingKeeps(s.db);
    }
  }

  lemma ChecksStaySound(db: Db, p: Put)
    requires Sound(db) && PutSound(db, p)
    ensures CheckUser(db, p).Some? ==> PutSound(db, CheckUser(db, p).value)
    ensures CheckCluster(db, p).Some? ==> PutSound(db, CheckCluster(db, p).value)
    ensures CheckNamespace(db, p).Some? ==> PutSound(db, CheckNamespace(db, p).value)
  {
    if CheckNamespace(db, p).Some? && CheckNamespace(db, p).value != p {
      assert KnownGrant(db, p.tenant, p.request[p.checked]);
    }
  }

  /** The PUT a check or a start writes, if it writes one. */
  function Written(s: State, step: Step): Option<Put> {
    match step
    case PutStart(put, tenant, user, request) => Some(Put(tenant, user, request, false, 0, false))
    case PutCheckUser(put) => if put in s.puts then CheckUser(s.db, s.puts[put]) else None
    case PutCheckCluster(put) => if put in s.puts then CheckCluster(s.db, s.puts[put]) else None
    case PutCheckNamespace(put) => if put in s.puts then CheckNamespace(s.db, s.puts[put]) else None
    case _ => None
  }

  lemma StepWrites(s: State, step: Step, any: nat)
    requires any in Apply(s, step).puts
    ensures (any in s.puts && Apply(s, step).puts[any] == s.puts[any]) ||
      Written(s, step) == Some(Apply(s, step).puts[any])
  {}

  lemma WrittenIsSound(s: State, step: Step)
    requires Inv(s) && Written(s, step).Some?
    ensures PutSound(s.db, Written(s, step).value)
  {
    if !step.PutStart? { ChecksStaySound(s.db, s.puts[step.put]); }
  }

  /** A step writes at most one PUT, and what it writes is sound in the tables it read. */
  lemma StepWritesSoundPuts(s: State, step: Step, any: nat)
    requires Inv(s) && any in Apply(s, step).puts
    ensures PutSound(s.db, Apply(s, step).puts[any])
  {
    StepWrites(s, step, any);
    if Written(s, step).Some? { WrittenIsSound(s, step); }
  }

  lemma StepKeepsInv(s: State, step: Step)
    requires Inv(s)
    ensures Inv(Apply(s, step))
  {
    if step.PutCommit? { CommitEvolves(s, step.put); } else { OtherStepKeeps(s, step); }
    var later := Apply(s, step);
    forall put | put in later.puts ensures PutSound(later.db, later.puts[put]) {
      StepWritesSoundPuts(s, step, put);
      PutStaysSound(s.db, later.db, later.puts[put]);
    }
  }

  /** Main theorem: in every state any interleaving can reach, each grant links a user and a cluster
      of one tenant and a namespace of that cluster, and no grant is repeated. */
  lemma {:induction false} EveryRunIsIsolated(steps: seq<Step>)
    ensures Inv(Run(steps))
    ensures forall g | g in Run(steps).db.grants :: Linked(Run(steps).db, g)
    ensures NoDuplicates(Run(steps).db.grants)
    decreases |steps|
  {
    if steps != [] {
      EveryRunIsIsolated(steps[..|steps| - 1]);
      StepKeepsInv(Run(steps[..|steps| - 1]), steps[|steps| - 1]);
    }
    UniqueIndexesMeanDistinct(Run(steps).db.grants);
  }

  function GrantsOf(grants: seq<Grant>, user: Id): seq<Grant> {
    if grants == [] then []
    else if grants[0].user == user then [grants[0]] + GrantsOf(grants[1..], user)
    else GrantsOf(grants[1..], user)
  }

  lemma {:induction false} GrantsOfAppend(a: seq<Grant>, b: seq<Grant>, user: Id)
    ensures GrantsOf(a + b, user) == GrantsOf(a, user) + GrantsOf(b, user)
  {
    if a == [] {
      assert a + b == b;
    } else {
      var all := a + b;
      assert all[0] == a[0] && all[1..] == a[1..] + b;
      GrantsOfAppend(a[1..], b, user);
    }
  }

  lemma {:induction false} GrantsOfOthers(grants: seq<Grant>, removed: Id, user: Id)
    ensures GrantsOf(OthersGrants(grants, removed), user) == if user == removed then [] else GrantsOf(grants, user)
  {
    if grants != [] {
      GrantsOfOthers(grants[1..], removed, user);
      var rest := OthersGrants(grants[1..], removed);
      if grants[0].user != removed {
        assert OthersGrants(grants, removed) == [grants[0]] + rest;
        assert ([grants[0]] + rest)[1..] == rest;
      }
    }
  }

  lemma {:induction false} GrantsOfRequested(request: seq<GrantRequest>, owner: Id, user: Id)
    ensures GrantsOf(RequestedGrants(owner, request), user) ==
      if user == owner then RequestedGrants(owner, request) else []
    decreases |request|
  {
    if request != [] {
      var wanted := RequestedGrants(owner, request);
      assert wanted[1..] == RequestedGrants(owner, request[1..]);
      GrantsOfRequested(request[1..], owner, user);
      assert wanted == [wanted[0]] + wanted[1..];
    }
  }

  /** A commit leaves the user's grants exactly as requested, or leaves the tables unchanged; it
      succeeds exactly when the requested rows are distinct and everything they name still exists.
      Nobody else's grants are touched. */
  lemma CommitIsAllOrNothing(s: State, put: nat)
    requires put in s.puts && ReadyToCommit(s.puts[put])
    ensures
      var p, after := s.puts[put], Apply(s, PutCommit(put)).db;
      && (CanReplace(s.db, p.user, p.request) ==> GrantsOf(after.grants, p.user) == RequestedGrants(p.user, p.request))
      && (!CanReplace(s.db, p.user, p.request) ==> after == s.db)
      && (forall u | u != p.user :: GrantsOf(after.grants, u) == GrantsOf(s.db.grants, u))
  {
    hide GrantsOf, OthersGrants, RequestedGrants, CanReplace;
    var p := s.puts[put];
    if CanReplace(s.db, p.user, p.request) {
      var others, wanted := OthersGrants(s.db.grants, p.user), RequestedGrants(p.user, p.request);
      forall u: Id ensures GrantsOf(others + wanted, u) == if u == p.user then wanted else GrantsOf(s.db.grants, u) {
        GrantsOfAppend(others, wanted, u);
        GrantsOfOthers(s.db.grants, p.user, u);
        GrantsOfRequested(p.request, p.user, u);
      }
    }
  }

  /** A grant can only come from a committed PUT that asked for it, made in the tenant
      that owns both the user and the cluster. */
  lemma GrantsComeFromPuts(s: State, step: Step, g: Grant)
    requires Inv(s)
    requires g in Apply(s, step).db.grants && g !in s.db.grants
    ensures step.PutCommit? && step.put in s.puts
    ensures
      var p := s.puts[step.put];
      && p.user == g.user && GrantRequest(g.cluster, g.namespace) in p.request
      && s.db.users[g.user].tenant == p.tenant && s.db.clusters[g.cluster].tenant == p.tenant
  {
    if !step.PutCommit? { OtherStepKeeps(s, step); }
    var p := s.puts[step.put];
    var wanted := RequestedGrants(p.user, p.request);
    assert g in OthersGrants(s.db.grants, p.user) + wanted;
    var i :| 0 <= i < |wanted| && wanted[i] == g;
    assert p.request[i] == GrantRequest(g.cluster, g.namespace);
    assert KnownGrant(s.db, p.tenant, p.request[i]);
  }
}
