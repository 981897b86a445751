/** Resolving a user's grant rows and turning them into the (clusters, namespaces) pair that is
    enforced (backend/cmd/query-gateway/main.go, loadAccess and scopeFor). `C` and `N` are how a
    cluster and a namespace are identified: by name in the gateway, by id in the access editor. */
module Access {
  import opened Wrappers
  import opened Text

  /** One grant row; no namespace means the whole cluster. */
  datatype Row<C, N> = Row(cluster: C, namespace: Option<N>)

  datatype ClusterGrant<N> = ClusterGrant(fullAccess: bool, namespaces: seq<N>)

  /** The namespaces granted one by one on `cluster`, in row order. */
  function NamespacesOf<C(==), N(!new)>(rows: seq<Row<C, N>>, cluster: C): (r: seq<N>)
    ensures forall n :: n in r <==> Row(cluster, Some(n)) in rows
  {
    if rows == [] then []
    else if rows[0].cluster == cluster && rows[0].namespace.Some? then
      [rows[0].namespace.value] + NamespacesOf(rows[1..], cluster)
    else NamespacesOf(rows[1..], cluster)
  }

  function Clusters<C, N(==)>(rows: seq<Row<C, N>>): set<C> {
    set row | row in rows :: row.cluster
  }

  /** What the fold over the rows amounts to, without a fold. */
  function Resolved<C, N(==,!new)>(rows: seq<Row<C, N>>): map<C, ClusterGrant<N>> {
    map c | c in Clusters(rows) :: ClusterGrant(Row(c, None) in rows, NamespacesOf(rows, c))
  }

  /** Some row covers the pair. */
  predicate Covers<C(==), N(==)>(rows: seq<Row<C, N>>, cluster: C, namespace: N) {
    Row(cluster, None) in rows || Row(cluster, Some(namespace)) in rows
  }

  lemma {:induction false} NamespacesOfAppend<C, N(!new)>(rows: seq<Row<C, N>>, row: Row<C, N>, cluster: C)
    ensures NamespacesOf(rows + [row], cluster)
         == NamespacesOf(rows, cluster) +
           (if row.cluster == cluster && row.namespace.Some? then [row.namespace.value] else [])
  {
    if rows == [] {
      assert rows + [row] == [row];
    } else {
      assert (rows + [row])[1..] == rows[1..] + [row];
      NamespacesOfAppend(rows[1..], row, cluster);
    }
  }

  function AddRow<C(==), N>(grants: map<C, ClusterGrant<N>>, row: Row<C, N>): map<C, ClusterGrant<N>> {
    var g := if row.cluster in grants then grants[row.cluster] else ClusterGrant(false, []);
    grants[row.cluster :=
      if row.namespace.None? then g.(fullAccess := true) else g.(namespaces := g.namespaces + [row.namespace.value])]
  }

  lemma ResolvedAppend<C(!new), N(!new)>(rows: seq<Row<C, N>>, row: Row<C, N>)
    ensures Resolved(rows + [row]) == AddRow(Resolved(rows), row)
  {
    var before, after := Resolved(rows), Resolved(rows + [row]);
    assert Clusters(rows + [row]) == Clusters(rows) + {row.cluster};
    forall c | c in after
      ensures after[c] == AddRow(before, row)[c]
    {
      NamespacesOfAppend(rows, row, c);
      assert Row(c, None) in rows + [row] <==> Row(c, None) in rows || row == Row(c, None);
      var ns := NamespacesOf(rows, c);
      assert ns != [] ==> Row(c, Some(ns[0])) in rows;
    }
  }

  /** loadAccess: the map is updated row by row. */
  method LoadAccess<C(==,!new), N(==,!new)>(rows: seq<Row<C, N>>) returns (grants: map<C, ClusterGrant<N>>)
    ensures grants == Resolved(rows)
  {
    grants := map[];
    for i := 0 to |rows|
      invariant grants == Resolved(rows[..i])
    {
      var row := rows[i];
      var g := if row.cluster in grants then grants[row.cluster] else ClusterGrant(false, []);
      if row.namespace.None? {
        g := g.(fullAccess := true);
      } else {
        g := g.(namespaces := g.namespaces + [row.namespace.value]);
      }
      grants := grants[row.cluster := g];
      ResolvedAppend(rows[..i], row);
      assert rows[..i + 1] == rows[..i] + [row];
    }
    assert rows[..|rows|] == rows;
  }

  ghost predicate AnyFull<C, N>(grants: map<C, ClusterGrant<N>>) {
    exists c | c in grants :: grants[c].fullAccess
  }

  /** scopeFor's result, whatever order the map is iterated in. */
  ghost predicate IsScope<C(!new), N(!new)>(grants: map<C, ClusterGrant<N>>, selected: Option<C>, clusters: seq<C>,
      namespaces: seq<N>, ok: bool) {
    match selected
    case Some(c) =>
      && (ok <==> c in grants)
      && (ok ==> clusters == [c] && namespaces == if grants[c].fullAccess then [] else grants[c].namespaces)
    case None =>
      && ok
      && NoDuplicates(clusters)
      && (forall c :: c in clusters <==> c in grants)
      && (if AnyFull(grants) then namespaces == []
          else forall n :: n in namespaces <==> exists c | c in grants :: n in grants[c].namespaces)
  }

  method ScopeFor<C(==,!new), N(!new)>(grants: map<C, ClusterGrant<N>>, selected: Option<C>)
      returns (clusterNames: seq<C>, namespaces: seq<N>, ok: bool)
    ensures IsScope(grants, selected, clusterNames, namespaces, ok)
  {
    clusterNames, namespaces := [], [];
    if selected.Some? {
      if selected.value !in grants {
        return [], [], false;
      }
      var g := grants[selected.value];
      if g.fullAccess {
        return [selected.value], [], true;
      }
      return [selected.value], g.namespaces, true;
    }
    var hasAnyFullAccess := false;
    var left := grants.Keys;
    while left != {}
      invariant left <= grants.Keys
      invariant NoDuplicates(clusterNames)
      invariant forall c :: c in clusterNames <==> c in grants.Keys - left
      invariant hasAnyFullAccess <==> exists c | c in grants.Keys - left :: grants[c].fullAccess
      invariant forall n :: n in namespaces <==>
        exists c | c in grants.Keys - left :: !grants[c].fullAccess && n in grants[c].namespaces
      decreases left
    {
      var name :| name in left;
      ghost var done := grants.Keys - left;
      left := left - {name};
      assert grants.Keys - left == done + {name};
      clusterNames := clusterNames + [name];
      if grants[name].fullAccess {
        hasAnyFullAccess := true;
      } else {
        namespaces := namespaces + grants[name].namespaces;
      }
    }
    assert grants.Keys - left == grants.Keys;
    if hasAnyFullAccess {
      namespaces := [];
    }
    ok := true;
  }

  /** What the injected matchers let through. */
  predicate Admits<C(==), N(==)>(clusters: seq<C>, namespaces: seq<N>, cluster: C, namespace: N) {
    cluster in clusters && (namespaces == [] || namespace in namespaces)
  }

  /** A cluster that is granted but not in full always has a namespace, so its list is never read
      as "no restriction". */
  lemma PartialHasNamespace<C, N(!new)>(rows: seq<Row<C, N>>, cluster: C)
    requires cluster in Clusters(rows) && Row(cluster, None) !in rows
    ensures Resolved(rows)[cluster].namespaces != []
  {
    var row :| row in rows && row.cluster == cluster;
    assert row == Row(cluster, Some(row.namespace.value));
    assert row.namespace.value in NamespacesOf(rows, cluster);
  }

  /** With a cluster selected: refused exactly when no row mentions it, and otherwise a pair gets
      through exactly when it is in that cluster and some row covers it. */
  lemma SelectedClusterIsExact<C(!new), N(!new)>(rows: seq<Row<C, N>>, selected: C, clusters: seq<C>,
      namespaces: seq<N>, ok: bool)
    requires IsScope(Resolved(rows), Some(selected), clusters, namespaces, ok)
    ensures ok <==> exists row | row in rows :: row.cluster == selected
    ensures ok ==> forall c, n :: Admits(clusters, namespaces, c, n) <==> c == selected && Covers(rows, c, n)
  {
    if ok && Row(selected, None) !in rows {
      PartialHasNamespace(rows, selected);
    }
  }

  ghost predicate SomeFull<C(!new), N>(rows: seq<Row<C, N>>) {
    exists c :: Row(c, None) in rows
  }

  lemma AnyFullMeansRow<C(!new), N(!new)>(rows: seq<Row<C, N>>)
    ensures AnyFull(Resolved(rows)) <==> SomeFull(rows)
  {
    if c :| Row(c, None) in rows {
      assert Row<C, N>.Row(c, None).cluster in Clusters(rows);
      assert Resolved(rows)[c].fullAccess;
    }
  }

  lemma PartialUnion<C(!new), N(!new)>(rows: seq<Row<C, N>>, clusters: seq<C>, namespaces: seq<N>, n: N)
    requires IsScope(Resolved(rows), None, clusters, namespaces, true) && !SomeFull(rows)
    ensures n in namespaces <==> exists d :: Row(d, Some(n)) in rows
  {
    var grants := Resolved(rows);
    AnyFullMeansRow(rows);
    if d :| Row(d, Some(n)) in rows {
      assert Row(d, Some(n)).cluster in Clusters(rows);
      assert d in grants && n in grants[d].namespaces;
    }
    if n in namespaces {
      var d :| d in grants && n in grants[d].namespaces;
      assert Row(d, Some(n)) in rows;
    }
  }

  /** With no cluster selected: a pair gets through when its cluster is granted and, unless some
      grant is full, its namespace is in the union of the granted namespaces. A granted pair is
      never rejected. */
  lemma NoSelectionAdmits<C(!new), N(!new)>(rows: seq<Row<C, N>>, clusters: seq<C>, namespaces: seq<N>, c: C, n: N)
    requires IsScope(Resolved(rows), None, clusters, namespaces, true)
    ensures Admits(clusters, namespaces, c, n) <==>
      c in Clusters(rows) && (SomeFull(rows) || exists d :: Row(d, Some(n)) in rows)
    ensures Covers(rows, c, n) ==> Admits(clusters, namespaces, c, n)
  {
    AnyFullMeansRow(rows);
    assert Row<C, N>.Row(c, None).cluster == c && Row(c, Some(n)).cluster == c;
    if !SomeFull(rows) {
      PartialUnion(rows, clusters, namespaces, n);
      if c in Clusters(rows) {
        PartialHasNamespace(rows, c);
        var m := Resolved(rows)[c].namespaces[0];
        assert Row(c, Some(m)) in rows;
        PartialUnion(rows, clusters, namespaces, m);
      }
    }
  }

  /** All grants are full, or none is and every granted cluster carries the same namespaces. */
  ghost predicate Uniform<C(!new), N(!new)>(rows: seq<Row<C, N>>) {
    || (forall c | c in Clusters(rows) :: Row(c, None) in rows)
    || (!SomeFull(rows) && forall c, d, n | c in Clusters(rows) && Row(d, Some(n)) in rows :: Row(c, Some(n)) in rows)
  }

  /** Some name is not listed. */
  ghost predicate LeavesOut<N(!new)>(names: seq<N>) {
    exists n :: n !in names
  }

  /** With no cluster selected the filter is exact if and only if the grants are uniform, given
      that there are more possible names than granted ones. */
  lemma NoSelectionExactness<C(!new), N(!new)>(rows: seq<Row<C, N>>, clusters: seq<C>, namespaces: seq<N>)
    requires IsScope(Resolved(rows), None, clusters, namespaces, true)
    requires forall c :: LeavesOut(NamespacesOf(rows, c))
    ensures (forall c, n :: Admits(clusters, namespaces, c, n) <==> Covers(rows, c, n)) <==> Uniform(rows)
  {
    forall c, n {
      NoSelectionAdmits(rows, clusters, namespaces, c, n);
    }
    if Uniform(rows) {
      forall c, n | Admits(clusters, namespaces, c, n) ensures Covers(rows, c, n) {
        if !SomeFull(rows) {
          var d :| Row(d, Some(n)) in rows;
        }
      }
    } else if SomeFull(rows) {
      var c :| c in Clusters(rows) && Row(c, None) !in rows;
      assert LeavesOut(NamespacesOf(rows, c));
      var n :| n !in NamespacesOf(rows, c);
      assert Admits(clusters, namespaces, c, n) && !Covers(rows, c, n);
    } else {
      var c, d, n :| c in Clusters(rows) && Row(d, Some(n)) in rows && Row(c, Some(n)) !in rows;
      assert Admits(clusters, namespaces, c, n) && !Covers(rows, c, n);
    }
  }

  /** Strings are such names: one longer than all of them is always missing. */
  lemma {:induction false} FreshName(names: seq<string>) returns (unseen: string)
    ensures unseen !in names
    ensures unseen != "" && forall n | n in names :: |n| < |unseen|
  {
    if names == [] {
      unseen := "n";
    } else {
      var longer := FreshName(names[1..]);
      unseen := longer + names[0];
      assert forall n | n in names :: n == names[0] || n in names[1..];
    }
  }

  /** The same, for the names the gateway uses. */
  lemma NoSelectionExactForNames(rows: seq<Row<string, string>>, clusters: seq<string>, namespaces: seq<string>)
    requires IsScope(Resolved(rows), None, clusters, namespaces, true)
    ensures (forall c, n :: Admits(clusters, namespaces, c, n) <==> Covers(rows, c, n)) <==> Uniform(rows)
  {
    forall c ensures LeavesOut(NamespacesOf(rows, c)) {
      var n := FreshName(NamespacesOf(rows, c));
    }
    NoSelectionExactness(rows, clusters, namespaces);
  }
}
