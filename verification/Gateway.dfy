/** query-gateway end to end (backend/cmd/query-gateway/main.go): from the stored grants, through the
    resolved access and the enforced scope, to what a user's rewritten query can see. */
module Gateway {
  import opened Wrappers
  import Regex
  import opened Access
  import opened Tables
  import opened PromQL
  import opened PromQLMeaning

  datatype Claims = Claims(user: Id, tenant: Id, isAdmin: bool)

  /** A session's tenant is the tenant of its user, who may have been deleted since. */
  ghost predicate SessionOf(db: Db, claims: Claims) {
    claims.user in db.users ==> db.users[claims.user].tenant == claims.tenant
  }

  type NamedRow = Row<string, string>

  function NameRow(db: Db, g: Grant): NamedRow
    requires References(db, g)
  {
    Row(db.clusters[g.cluster].name, if g.namespace.None? then None else Some(db.namespaces[g.namespace.value].name))
  }

  /** The rows loadAccess reads, in whatever order the database returns them. */
  ghost predicate IsAccessRows(db: Db, claims: Claims, rows: seq<NamedRow>)
    requires Consistent(db)
  {
    forall row :: row in rows <==>
      if claims.isAdmin then
        exists c | c in db.clusters :: db.clusters[c].tenant == claims.tenant && row == Row(db.clusters[c].name, None)
      else exists g | g in db.grants :: g.user == claims.user && row == NameRow(db, g)
  }

  /** By id: the claims give access to this namespace name of this cluster. */
  ghost predicate Granted(db: Db, claims: Claims, cluster: Id, namespace: string)
    requires Consistent(db)
  {
    && cluster in db.clusters
    && if claims.isAdmin then db.clusters[cluster].tenant == claims.tenant
       else exists g | g in db.grants ::
         && g.user == claims.user && g.cluster == cluster
         && (g.namespace.Some? ==> db.namespaces[g.namespace.value].name == namespace)
  }

  /** By name: the tenant has a cluster of this name to whose namespace the claims give access. */
  ghost predicate GrantedByName(db: Db, claims: Claims, cluster: string, namespace: string)
    requires Consistent(db)
  {
    exists c | c in db.clusters ::
      db.clusters[c] == Cluster(claims.tenant, cluster) && Granted(db, claims, c, namespace)
  }

  /** Matching by name is matching by id: names are unique within a tenant, and grants stay in it. */
  lemma NamesAgreeWithIds(db: Db, claims: Claims, rows: seq<NamedRow>, cluster: string, namespace: string)
    requires Sound(db) && SessionOf(db, claims) && IsAccessRows(db, claims, rows)
    ensures Covers(rows, cluster, namespace) <==> GrantedByName(db, claims, cluster, namespace)
    ensures forall c | c in db.clusters && db.clusters[c] == Cluster(claims.tenant, cluster) ::
      Covers(rows, cluster, namespace) <==> Granted(db, claims, c, namespace)
  {
    if Covers(rows, cluster, namespace) {
      var row := if Row(cluster, None) in rows then Row(cluster, None) else Row(cluster, Some(namespace));
      assert row in rows;
      if claims.isAdmin {
        var c :| c in db.clusters && db.clusters[c].tenant == claims.tenant && row == Row(db.clusters[c].name, None);
        assert db.clusters[c] == Cluster(claims.tenant, cluster) && Granted(db, claims, c, namespace);
      } else {
        var g :| g in db.grants && g.user == claims.user && row == NameRow(db, g);
        assert Linked(db, g);
        assert db.clusters[g.cluster] == Cluster(claims.tenant, cluster) && Granted(db, claims, g.cluster, namespace);
      }
    }
    forall c | c in db.clusters && db.clusters[c] == Cluster(claims.tenant, cluster) &&
      Granted(db, claims, c, namespace)
      ensures Covers(rows, cluster, namespace)
    {
      if claims.isAdmin {
        assert Row(cluster, None) in rows;
      } else {
        var g :| g in db.grants && g.user == claims.user && g.cluster == c &&
          (g.namespace.Some? ==> db.namespaces[g.namespace.value].name == namespace);
        assert NameRow(db, g) in rows;
      }
    }
  }

  datatype Response = Forbidden(reason: string) | BadRequest(reason: string) | Forward(query: Ast<VectorSelector>)

  /** Some enforced scope of these rows. */
  ghost predicate Enforced(rows: seq<NamedRow>, selected: string, clusters: seq<string>, namespaces: seq<string>) {
    clusters != [] &&
      IsScope(Resolved(rows), if selected == "" then None else Some(selected), clusters, namespaces, true)
  }

  /** handleQuery for metrics, from the loaded rows to the query sent upstream. `parsed` is absent
      when the request has no query. */
  method HandleQuery(rows: seq<NamedRow>, selected: string, parsed: Option<Result<Ast<VectorSelector>>>,
      ghost nodes: set<VectorSelector>)
      returns (r: Response)
    requires parsed.Some? && parsed.value.Ok? ==> IsTree(parsed.value.value) && Selectors(parsed.value.value) <= nodes
    modifies if parsed.Some? && parsed.value.Ok? then Selectors(parsed.value.value) else {}
    ensures r.Forbidden? <==> if selected == "" then rows == [] else forall row | row in rows :: row.cluster != selected
    ensures r.Forward? <==> !r.Forbidden? && parsed.Some? && parsed.value.Ok?
    ensures r.Forward? ==> exists clusters, namespaces ::
      Enforced(rows, selected, clusters, namespaces) &&
        View(r.query) == Scope(old(View(parsed.value.value)), Injected(clusters, namespaces))
  {
    var grants := LoadAccess(rows);
    var clusterNames, namespaces, ok := ScopeFor(grants, if selected == "" then None else Some(selected));
    if !ok {
      return Forbidden("no access to cluster " + selected);
    }
    assert selected == "" && rows != [] ==> rows[0].cluster in clusterNames by {
      assert rows != [] ==> rows[0] in rows;
    }
    if clusterNames == [] {
      return Forbidden("no clusters granted to this user");
    }
    assert selected == "" ==> clusterNames[0] in grants;
    if parsed.None? {
      return BadRequest("missing query parameter");
    }
    var scoped := ScopePromQL(parsed.value, clusterNames, namespaces, nodes);
    if scoped.Err? {
      return BadRequest("could not scope query: " + scoped.message);
    }
    assert Enforced(rows, selected, clusterNames, namespaces);
    return Forward(scoped.value);
  }

  /** Main theorem: with a cluster selected, the query sent upstream evaluates to the user's query
      over exactly the tenant's series that a grant of the user covers. */
  lemma SelectedQueryIsExact(db: Db, claims: Claims, rows: seq<NamedRow>, selected: string, clusters: seq<string>,
      namespaces: seq<string>, q: Query, data: seq<Series>, at: int, sem: Semantics)
    requires Sound(db) && SessionOf(db, claims) && IsAccessRows(db, claims, rows)
    requires selected != "" && Enforced(rows, selected, clusters, namespaces)
    requires Regex.Honours(sem.regex)
    ensures Eval(Scope(q, Injected(clusters, namespaces)), data, at, sem)
         == Eval(q, Restrict(data, labels => Get(labels, "cluster") == selected &&
           GrantedByName(db, claims, selected, Get(labels, "namespace"))), at, sem)
  {
    var permitted: Labels -> bool := labels => Permitted(labels, clusters, namespaces);
    var granted: Labels -> bool := labels => Get(labels, "cluster") == selected &&
      GrantedByName(db, claims, selected, Get(labels, "namespace"));
    forall labels: Labels ensures permitted(labels) <==> granted(labels) {
      SelectedClusterIsExact(rows, selected, clusters, namespaces, true);
      assert Permitted(labels, clusters, namespaces) <==>
        Admits(clusters, namespaces, Get(labels, "cluster"), Get(labels, "namespace"));
      NamesAgreeWithIds(db, claims, rows, selected, Get(labels, "namespace"));
    }
    ScopedQueryMeansPermittedData(q, clusters, namespaces, data, at, sem);
    RestrictCongruent(data, permitted, granted);
  }

  /** With no cluster selected a granted pair always gets through, and nothing else does if and only
      if the user's grants are uniform. */
  lemma UnselectedPairs(db: Db, claims: Claims, rows: seq<NamedRow>, clusters: seq<string>, namespaces: seq<string>)
    requires Sound(db) && SessionOf(db, claims) && IsAccessRows(db, claims, rows)
    requires Enforced(rows, "", clusters, namespaces)
    ensures forall c, n :: GrantedByName(db, claims, c, n) ==> Admits(clusters, namespaces, c, n)
    ensures (forall c, n :: Admits(clusters, namespaces, c, n) <==> GrantedByName(db, claims, c, n)) <==> Uniform(rows)
  {
    forall c, n
      ensures Covers(rows, c, n) <==> GrantedByName(db, claims, c, n)
      ensures Covers(rows, c, n) ==> Admits(clusters, namespaces, c, n)
    {
      NamesAgreeWithIds(db, claims, rows, c, n);
      NoSelectionAdmits(rows, clusters, namespaces, c, n);
    }
    NoSelectionExactForNames(rows, clusters, namespaces);
  }

  /** With no cluster selected, under uniform grants: the query over exactly the granted series. */
  lemma UniformUnselectedQueryIsExact(db: Db, claims: Claims, rows: seq<NamedRow>, clusters: seq<string>,
      namespaces: seq<string>, q: Query, data: seq<Series>, at: int, sem: Semantics)
    requires Sound(db) && SessionOf(db, claims) && IsAccessRows(db, claims, rows)
    requires Enforced(rows, "", clusters, namespaces) && Uniform(rows)
    requires Regex.Honours(sem.regex)
    ensures Eval(Scope(q, Injected(clusters, namespaces)), data, at, sem)
         == Eval(q, Restrict(data, labels =>
           GrantedByName(db, claims, Get(labels, "cluster"), Get(labels, "namespace"))), at, sem)
  {
    var permitted: Labels -> bool := labels => Permitted(labels, clusters, namespaces);
    var granted: Labels -> bool := labels =>
      GrantedByName(db, claims, Get(labels, "cluster"), Get(labels, "namespace"));
    UnselectedPairs(db, claims, rows, clusters, namespaces);
    assert forall labels :: permitted(labels) <==>
      Admits(clusters, namespaces, Get(labels, "cluster"), Get(labels, "namespace"));
    ScopedQueryMeansPermittedData(q, clusters, namespaces, data, at, sem);
    RestrictCongruent(data, permitted, granted);
  }
}
