/** The control-plane tables and the transactions that change them: the schema of
    backend/migrations/0001_init.sql and 0003_access_grants_null_uniqueness.sql, and the statements
    that tenant-service and rbac-service run. Each transaction is atomic. */
module Tables {
  import opened Wrappers
  import opened Text

  type Id = nat

  datatype Cluster = Cluster(tenant: Id, name: string)

  datatype Namespace = Namespace(cluster: Id, name: string)

  datatype Role = Admin | Editor | Viewer

  datatype User = User(tenant: Id, email: string, role: Role)

  datatype Grant = Grant(user: Id, cluster: Id, namespace: Option<Id>)

  /** `issued` holds every id ever generated: deleted ids are never handed out again. */
  datatype Db = Db(
    issued: set<Id>,
    tenants: set<Id>,
    clusters: map<Id, Cluster>,
    namespaces: map<Id, Namespace>,
    users: map<Id, User>,
    grants: seq<Grant>)

  /* Constraints. */

  predicate References(db: Db, g: Grant) {
    g.user in db.users && g.cluster in db.clusters && (g.namespace.Some? ==> g.namespace.value in db.namespaces)
  }

  /** The partial index of migration 0003 over the rows without a namespace. */
  predicate FullClusterIndex(grants: seq<Grant>) {
    forall i, j | 0 <= i < j < |grants| && grants[i].namespace.None? && grants[j].namespace.None? ::
      (grants[i].user, grants[i].cluster) != (grants[j].user, grants[j].cluster)
  }

  /** Its partial index over the rows with one. */
  predicate ScopedIndex(grants: seq<Grant>) {
    forall i, j | 0 <= i < j < |grants| && grants[i].namespace.Some? && grants[j].namespace.Some? ::
      (grants[i].user, grants[i].cluster, grants[i].namespace) !=
        (grants[j].user, grants[j].cluster, grants[j].namespace)
  }

  predicate UniqueIndexes(grants: seq<Grant>) { FullClusterIndex(grants) && ScopedIndex(grants) }

  ghost predicate ForeignKeys(db: Db) {
    && (forall c | c in db.clusters :: db.clusters[c].tenant in db.tenants)
    && (forall n | n in db.namespaces :: db.namespaces[n].cluster in db.clusters)
    && (forall u | u in db.users :: db.users[u].tenant in db.tenants)
    && (forall g | g in db.grants :: References(db, g))
  }

  /** UNIQUE over every column the model keeps. */
  ghost predicate UniqueRows<T>(table: map<Id, T>) {
    forall i, j | i in table && j in table && i != j :: table[i] != table[j]
  }

  ghost predicate UniqueEmails(users: map<Id, User>) {
    forall u, v | u in users && v in users && u != v ::
      users[u].tenant != users[v].tenant || users[u].email != users[v].email
  }

  ghost predicate Consistent(db: Db) {
    && db.tenants + db.clusters.Keys + db.namespaces.Keys + db.users.Keys <= db.issued
    && ForeignKeys(db)
    && (forall c | c in db.clusters :: db.clusters[c].name != "")
    && UniqueRows(db.clusters)
    && UniqueRows(db.namespaces)
    && UniqueEmails(db.users)
    && UniqueIndexes(db.grants)
  }

  /** A grant stays inside one tenant, and its namespace inside its cluster. No constraint of the
      schema says so: the services have to keep it. */
  ghost predicate Linked(db: Db, g: Grant) {
    && References(db, g)
    && db.users[g.user].tenant == db.clusters[g.cluster].tenant
    && (g.namespace.Some? ==> db.namespaces[g.namespace.value].cluster == g.cluster)
  }

  ghost predicate Isolated(db: Db) {
    forall g | g in db.grants :: Linked(db, g)
  }

  /* Transactions; one that violates a constraint or matches no row leaves the tables alone. */

  const EMPTY := Db({}, {}, map[], map[], map[], [])

  function SignUp(db: Db, tenant: Id, user: Id, email: string): Db {
    if tenant in db.issued || user in db.issued || tenant == user then db
    else db.(issued := db.issued + {tenant, user},
             tenants := db.tenants + {tenant},
             users := db.users[user := User(tenant, email, Admin)])
  }

  function CreateCluster(db: Db, tenant: Id, name: string, id: Id): Db {
    if name == "" || tenant !in db.tenants || Cluster(tenant, name) in db.clusters.Values || id in db.issued then db
    else db.(issued := db.issued + {id}, clusters := db.clusters[id := Cluster(tenant, name)])
  }

  function OffCluster(cluster: Id, namespaces: set<Id>): Grant -> bool {
    (g: Grant) => g.cluster != cluster && (g.namespace.Some? ==> g.namespace.value !in namespaces)
  }

  function NotOf(user: Id): Grant -> bool {
    (g: Grant) => g.user != user
  }

  /** Deleting a cluster cascades to its namespaces, and from both to the grants. */
  function DeleteCluster(db: Db, tenant: Id, id: Id): Db {
    if id !in db.clusters || db.clusters[id].tenant != tenant then db
    else
      var doomed := set n | n in db.namespaces && db.namespaces[n].cluster == id;
      db.(clusters := db.clusters - {id},
          namespaces := db.namespaces - doomed,
          grants := Filter(db.grants, OffCluster(id, doomed)))
  }

  function Upsert(db: Db, cluster: Id, name: string, id: Id): Db {
    if Namespace(cluster, name) in db.namespaces.Values || id in db.issued then db
    else db.(issued := db.issued + {id}, namespaces := db.namespaces[id := Namespace(cluster, name)])
  }

  /** Upserts in list order; `ids` supplies the generated ids. */
  function UpsertAll(db: Db, cluster: Id, names: seq<string>, ids: seq<Id>): Db
    requires |ids| == |names|
    decreases |names|
  {
    if names == [] then db
    else
      var last := |names| - 1;
      Upsert(UpsertAll(db, cluster, names[..last], ids[..last]), cluster, names[last], ids[last])
  }

  function ReportNamespaces(db: Db, cluster: Id, names: seq<string>, ids: seq<Id>): Db
    requires |ids| == |names|
  {
    if cluster !in db.clusters then db else UpsertAll(db, cluster, names, ids)
  }

  predicate EmailTaken(db: Db, tenant: Id, email: string) {
    exists u | u in db.users :: db.users[u].tenant == tenant && db.users[u].email == email
  }

  function CreateUser(db: Db, tenant: Id, id: Id, email: string, role: Role): Db {
    if email == "" || tenant !in db.tenants || EmailTaken(db, tenant, email) || id in db.issued then db
    else db.(issued := db.issued + {id}, users := db.users[id := User(tenant, email, role)])
  }

  function DeleteUser(db: Db, tenant: Id, id: Id): Db {
    if id !in db.users || db.users[id].tenant != tenant then db
    else db.(users := db.users - {id}, grants := OthersGrants(db.grants, id))
  }

  function OthersGrants(grants: seq<Grant>, user: Id): seq<Grant> {
    Filter(grants, NotOf(user))
  }

  datatype GrantRequest = GrantRequest(cluster: Id, namespace: Option<Id>)

  function RequestedGrants(user: Id, request: seq<GrantRequest>): seq<Grant> {
    seq(|request|, i requires 0 <= i < |request| => Grant(user, request[i].cluster, request[i].namespace))
  }

  /** The replacement commits exactly when nothing it inserts breaks a constraint. */
  predicate CanReplace(db: Db, user: Id, request: seq<GrantRequest>) {
    NoDuplicates(request) && forall g | g in RequestedGrants(user, request) :: References(db, g)
  }

  function ReplaceGrants(db: Db, user: Id, request: seq<GrantRequest>): Db {
    if CanReplace(db, user, request) then db.(grants := OthersGrants(db.grants, user) + RequestedGrants(user, request))
    else db
  }

  /* The same transactions where the services run loops, on mutable tables. */

  class Database {
    var db: Db

    constructor ()
      ensures db == EMPTY
    {
      db := EMPTY;
    }

    /** One INSERT INTO access_grants under the foreign keys and unique indexes. */
    method InsertGrant(g: Grant) returns (ok: bool)
      modifies this
      ensures ok <==> old(References(db, g) && g !in db.grants)
      ensures db == if ok then old(db).(grants := old(db).grants + [g]) else old(db)
    {
      ok := References(db, g);
      var i := 0;
      while ok && i < |db.grants|
        invariant db == old(db) && 0 <= i <= |db.grants|
        invariant ok <==> References(db, g) && g !in db.grants[..i]
      {
        var other := db.grants[i];
        ok := !(other.user == g.user && other.cluster == g.cluster && other.namespace == g.namespace);
        i := i + 1;
      }
      if ok {
        assert db.grants[..i] == db.grants;
        db := db.(grants := db.grants + [g]);
      }
    }

    /** The transaction of handlePutUserAccess: delete the user's rows, insert the requested ones,
        and roll everything back on the first failure. */
    method ReplaceAccess(user: Id, request: seq<GrantRequest>) returns (ok: bool)
      modifies this
      ensures ok <==> old(CanReplace(db, user, request))
      ensures db == ReplaceGrants(old(db), user, request)
    {
      var snapshot := db;
      db := db.(grants := OthersGrants(db.grants, user));
      ghost var wanted := RequestedGrants(user, request);
      var i := 0;
      while i < |request|
        invariant 0 <= i <= |request|
        invariant db == snapshot.(grants := OthersGrants(snapshot.grants, user) + wanted[..i])
        invariant forall k | 0 <= k < i :: References(snapshot, wanted[k])
        invariant forall j, k | 0 <= j < k < i :: request[j] != request[k]
      {
        var g := Grant(user, request[i].cluster, request[i].namespace);
        var inserted := InsertGrant(g);
        assert wanted[i] == g && g in wanted;
        if !inserted {
          if g in wanted[..i] {
            var k :| 0 <= k < i && wanted[k] == g;
            assert request[k] == request[i];
          }
          db := snapshot;
          return false;
        }
        assert g !in wanted[..i];
        forall j | 0 <= j < i ensures request[j] != request[i] {
          assert wanted[j] in wanted[..i];
        }
        assert wanted[..i + 1] == wanted[..i] + [g];
        i := i + 1;
      }
      assert wanted[..i] == wanted;
      return true;
    }

    /** The validation loop of handlePutUserAccess, run without interference. */
    method ValidateGrants(tenant: Id, request: seq<GrantRequest>) returns (ok: bool)
      ensures ok <==> forall g | g in request ::
        && g.cluster in db.clusters && db.clusters[g.cluster].tenant == tenant
        && (g.namespace.Some? ==>
           g.namespace.value in db.namespaces && db.namespaces[g.namespace.value].cluster == g.cluster)
    {
      for i := 0 to |request|
        invariant forall g | g in request[..i] ::
          && g.cluster in db.clusters && db.clusters[g.cluster].tenant == tenant
          && (g.namespace.Some? ==>
             g.namespace.value in db.namespaces && db.namespaces[g.namespace.value].cluster == g.cluster)
      {
        var g := request[i];
        assert g in request;
        if !(g.cluster in db.clusters && db.clusters[g.cluster].tenant == tenant) {
          return false;
        }
        if g.namespace.Some? {
          var n := g.namespace.value;
          if !(n in db.namespaces && db.namespaces[n].cluster == g.cluster && db.clusters[g.cluster].tenant == tenant) {
            return false;
          }
        }
      }
      return true;
    }

    /** The transaction of handleReportNamespaces. */
    method Report(cluster: Id, names: seq<string>, ids: seq<Id>) returns (found: bool)
      requires |ids| == |names|
      modifies this
      ensures found <==> cluster in old(db).clusters
      ensures db == ReportNamespaces(old(db), cluster, names, ids)
    {
      if cluster !in db.clusters {
        return false;
      }
      for i := 0 to |names|
        invariant db == UpsertAll(old(db), cluster, names[..i], ids[..i])
      {
        db := Upsert(db, cluster, names[i], ids[i]);
        assert names[..i + 1][..i] == names[..i] && ids[..i + 1][..i] == ids[..i];
      }
      assert names[..|names|] == names && ids[..|names|] == ids;
      return true;
    }
  }

  /* What the transactions keep. */

  lemma {:induction false} FilterKeepsDistinct<T>(xs: seq<T>, keep: T -> bool)
    requires NoDuplicates(xs)
    ensures NoDuplicates(Filter(xs, keep))
  {
    if xs != [] {
      FilterKeepsDistinct(xs[1..], keep);
      var rest := Filter(xs[1..], keep);
      assert xs[0] !in xs[1..];
      assert xs[0] !in rest;
    }
  }

  /** Together the two indexes forbid every repeated row, NULL counting as equal to NULL. */
  lemma UniqueIndexesMeanDistinct(grants: seq<Grant>)
    ensures UniqueIndexes(grants) <==> NoDuplicates(grants)
  {
    if UniqueIndexes(grants) {
      forall i, j | 0 <= i < j < |grants| ensures grants[i] != grants[j] {
        assert grants[i].namespace.None? && grants[j].namespace.None? ==>
          (grants[i].user, grants[i].cluster) != (grants[j].user, grants[j].cluster);
      }
    }
  }

  lemma FilteredGrants(grants: seq<Grant>, keep: Grant -> bool)
    requires UniqueIndexes(grants)
    ensures UniqueIndexes(Filter(grants, keep))
  {
    UniqueIndexesMeanDistinct(grants);
    FilterKeepsDistinct(grants, keep);
    UniqueIndexesMeanDistinct(Filter(grants, keep));
  }

  /** Ids are never reused and rows never re-pointed: a row present later was there before, or its
      id is new. This is what lets a check made earlier still mean something later. */
  ghost predicate Evolves(db: Db, later: Db) {
    && db.issued <= later.issued
    && (forall c | c in later.clusters && c in db.issued :: c in db.clusters && later.clusters[c] == db.clusters[c])
    && (forall n | n in later.namespaces && n in db.issued ::
         n in db.namespaces && later.namespaces[n] == db.namespaces[n])
    && (forall u | u in later.users && u in db.issued :: u in db.users && later.users[u] == db.users[u])
  }

  ghost predicate Sound(db: Db) { Consistent(db) && Isolated(db) }

  ghost predicate Keeps(db: Db, later: Db) {
    Sound(later) && Evolves(db, later) && forall g | g in later.grants :: g in db.grants
  }

  lemma InsertUnique<T>(table: map<Id, T>, id: Id, row: T)
    requires UniqueRows(table) && row !in table.Values && id !in table
    ensures UniqueRows(table[id := row])
  {
    assert forall i | i in table :: table[i] in table.Values;
  }

  lemma SignedUpIsConsistent(db: Db, tenant: Id, user: Id, email: string)
    requires Sound(db)
    ensures Consistent(SignUp(db, tenant, user, email))
  {
    hide UniqueIndexes;
  }

  lemma SignUpKeeps(db: Db, tenant: Id, user: Id, email: string)
    requires Sound(db)
    ensures Keeps(db, SignUp(db, tenant, user, email))
  {
    SignedUpIsConsistent(db, tenant, user, email);
    hide UniqueIndexes;
  }

  lemma CreateClusterKeeps(db: Db, tenant: Id, name: string, id: Id)
    requires Sound(db)
    ensures Keeps(db, CreateCluster(db, tenant, name, id))
  {
    var later := CreateCluster(db, tenant, name, id);
    if later != db {
      InsertUnique(db.clusters, id, Cluster(tenant, name));
    }
  }

  lemma DeletedClusterIsConsistent(db: Db, tenant: Id, id: Id)
    requires Sound(db)
    ensures Consistent(DeleteCluster(db, tenant, id))
  {
    var doomed := set n | n in db.namespaces && db.namespaces[n].cluster == id;
    FilteredGrants(db.grants, OffCluster(id, doomed));
  }

  lemma DeleteClusterKeeps(db: Db, tenant: Id, id: Id)
    requires Sound(db)
    ensures Keeps(db, DeleteCluster(db, tenant, id))
  {
    DeletedClusterIsConsistent(db, tenant, id);
    hide Consistent;
  }

  lemma UpsertedIsConsistent(db: Db, cluster: Id, name: string, id: Id)
    requires Sound(db) && cluster in db.clusters
    ensures Consistent(Upsert(db, cluster, name, id))
  {
    hide UniqueIndexes;
    if Upsert(db, cluster, name, id) != db { InsertUnique(db.namespaces, id, Namespace(cluster, name)); }
  }

  lemma UpsertKeeps(db: Db, cluster: Id, name: string, id: Id)
    requires Sound(db) && cluster in db.clusters
    ensures Keeps(db, Upsert(db, cluster, name, id))
  {
    UpsertedIsConsistent(db, cluster, name, id);
    hide UniqueIndexes;
    assert forall g | g in db.grants :: Linked(db, g);
  }

  lemma {:induction false} UpsertAllKeeps(db: Db, cluster: Id, names: seq<string>, ids: seq<Id>)
    requires Sound(db) && cluster in db.clusters && |ids| == |names|
    ensures Keeps(db, UpsertAll(db, cluster, names, ids))
    ensures UpsertAll(db, cluster, names, ids).clusters == db.clusters
    decreases |names|
  {
    if names != [] {
      var last := |names| - 1;
      UpsertAllKeeps(db, cluster, names[..last], ids[..last]);
      UpsertKeeps(UpsertAll(db, cluster, names[..last], ids[..last]), cluster, names[last], ids[last]);
    }
  }

  /** After a report every reported name is a namespace of the cluster, and no earlier row is lost or changed. */
  lemma {:induction false} ReportIsComplete(db: Db, cluster: Id, names: seq<string>, ids: seq<Id>)
    requires |ids| == |names| && NoDuplicates(ids) && forall i | i in ids :: i !in db.issued
    requires db.namespaces.Keys <= db.issued
    ensures forall name | name in names ::
      Namespace(cluster, name) in UpsertAll(db, cluster, names, ids).namespaces.Values
    ensures
      var later := UpsertAll(db, cluster, names, ids).namespaces;
      forall n | n in db.namespaces :: n in later && later[n] == db.namespaces[n]
    ensures forall i | i in UpsertAll(db, cluster, names, ids).issued :: i in db.issued || i in ids
    ensures UpsertAll(db, cluster, names, ids).namespaces.Keys <= UpsertAll(db, cluster, names, ids).issued
    decreases |names|
  {
    if names != [] {
      var last := |names| - 1;
      ReportIsComplete(db, cluster, names[..last], ids[..last]);
      var before := UpsertAll(db, cluster, names[..last], ids[..last]);
      var after := UpsertAll(db, cluster, names, ids);
      assert ids[last] !in before.issued;
      assert after == before || after.namespaces[ids[last]] == Namespace(cluster, names[last]);
      forall name | name in names ensures Namespace(cluster, name) in after.namespaces.Values {
        if name in names[..last] {
          var n :| n in before.namespaces && before.namespaces[n] == Namespace(cluster, name);
          assert after.namespaces[n] == Namespace(cluster, name);
        } else {
          assert name == names[last];
        }
      }
    }
  }

  lemma CreatedUserIsConsistent(db: Db, tenant: Id, id: Id, email: string, role: Role)
    requires Sound(db)
    ensures Consistent(CreateUser(db, tenant, id, email, role))
  {
    hide UniqueIndexes;
  }

  lemma CreateUserKeeps(db: Db, tenant: Id, id: Id, email: string, role: Role)
    requires Sound(db)
    ensures Keeps(db, CreateUser(db, tenant, id, email, role))
  {
    CreatedUserIsConsistent(db, tenant, id, email, role);
    hide UniqueIndexes;
  }

  lemma DeletedUserIsConsistent(db: Db, tenant: Id, id: Id)
    requires Sound(db)
    ensures Consistent(DeleteUser(db, tenant, id))
  {
    hide UniqueIndexes;
    FilteredGrants(db.grants, NotOf(id));
  }

  lemma DeleteUserKeeps(db: Db, tenant: Id, id: Id)
    requires Sound(db)
    ensures Keeps(db, DeleteUser(db, tenant, id))
  {
    DeletedUserIsConsistent(db, tenant, id);
    hide Consistent;
  }

  /** A replacement keeps the schema; it keeps isolation when every requested grant that can be
      inserted is linked. */
  lemma ReplaceGrantsKeeps(db: Db, user: Id, request: seq<GrantRequest>)
    requires Sound(db)
    requires forall g | g in RequestedGrants(user, request) && References(db, g) :: Linked(db, g)
    ensures Sound(ReplaceGrants(db, user, request)) && Evolves(db, ReplaceGrants(db, user, request))
  {
    if CanReplace(db, user, request) {
      var others, wanted := OthersGrants(db.grants, user), RequestedGrants(user, request);
      FilteredGrants(db.grants, NotOf(user));
      UniqueIndexesMeanDistinct(others);
      var all := others + wanted;
      forall i, j | 0 <= i < j < |all| ensures all[i] != all[j] {
        if i < |others| <= j {
          assert all[i] in others && all[j] == wanted[j - |others|];
        } else if |others| <= i {
          assert request[i - |others|] != request[j - |others|];
        }
      }
      UniqueIndexesMeanDistinct(all);
      forall g | g in all ensures g in db.grants || g in wanted {}
    }
  }
}
