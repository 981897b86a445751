/** The admin's access editor (frontend/src/app/admin/users/AccessEditor.tsx): loading grant rows into
    its state, editing the state, flattening it back, and what the saved rows then enforce. */
module Editor {
  import opened Wrappers
  import opened Text
  import opened Access
  import opened Tables
  import opened Gateway
  import Rbac

  /** A cluster with neither full access nor a namespace is absent from the state. */
  datatype Entry = Entry(full: bool, namespaces: set<Id>)

  type AccessState = map<Id, Entry>

  type GrantRow = Row<Id, Id>

  ghost predicate Valid(s: AccessState) {
    forall c | c in s :: s[c].full <==> s[c].namespaces == {}
  }

  /** What the state shows the admin as granted. */
  predicate Shows(s: AccessState, cluster: Id, namespace: Id) {
    cluster in s && (s[cluster].full || namespace in s[cluster].namespaces)
  }

  /* Loading. */

  function Loaded(rows: seq<GrantRow>): AccessState {
    map c | c in Clusters(rows) ::
      if Row(c, None) in rows then Entry(true, {}) else Entry(false, set n | n in NamespacesOf(rows, c))
  }

  function LoadRow(s: AccessState, g: GrantRow): AccessState {
    if g.namespace.None? then s[g.cluster := Entry(true, {})]
    else
      var cur := if g.cluster in s then s[g.cluster] else Entry(false, {});
      s[g.cluster := if cur.full then cur else cur.(namespaces := cur.namespaces + {g.namespace.value})]
  }

  lemma LoadedAppend(rows: seq<GrantRow>, g: GrantRow)
    ensures Loaded(rows + [g]) == LoadRow(Loaded(rows), g)
  {
    assert Clusters(rows + [g]) == Clusters(rows) + {g.cluster};
    forall c | c in Loaded(rows + [g])
      ensures Loaded(rows + [g])[c] == LoadRow(Loaded(rows), g)[c]
    {
      NamespacesOfAppend(rows, g, c);
      assert Row(c, None) in rows + [g] <==> Row(c, None) in rows || g == Row(c, None);
      assert Row(c, None) in rows ==> c in Clusters(rows);
      var ns := NamespacesOf(rows, c);
      assert ns != [] ==> Row(c, Some(ns[0])) in rows;
    }
  }

  method Load(rows: seq<GrantRow>) returns (next: AccessState)
    ensures next == Loaded(rows) && Valid(next)
  {
    next := map[];
    for i := 0 to |rows|
      invariant next == Loaded(rows[..i])
    {
      var g := rows[i];
      if g.namespace.None? {
        next := next[g.cluster := Entry(true, {})];
      } else {
        var cur := if g.cluster in next then next[g.cluster] else Entry(false, {});
        if !cur.full {
          cur := cur.(namespaces := cur.namespaces + {g.namespace.value});
        }
        next := next[g.cluster := cur];
      }
      LoadedAppend(rows[..i], g);
      assert rows[..i + 1] == rows[..i] + [g];
    }
    assert rows[..|rows|] == rows;
    forall c | c in next && Row(c, None) !in rows ensures next[c].namespaces != {} {
      PartialHasNamespace(rows, c);
      assert NamespacesOf(rows, c)[0] in next[c].namespaces;
    }
  }

  /* Editing. */

  function ToggleFull(s: AccessState, cluster: Id): AccessState {
    if cluster in s && s[cluster].full then s - {cluster} else s[cluster := Entry(true, {})]
  }

  function AddNamespace(s: AccessState, cluster: Id, namespace: Id): AccessState {
    var namespaces := if cluster in s && !s[cluster].full then s[cluster].namespaces else {};
    s[cluster := Entry(false, namespaces + {namespace})]
  }

  function RemoveNamespace(s: AccessState, cluster: Id, namespace: Id): AccessState {
    if cluster !in s || s[cluster].full then s
    else
      var namespaces := s[cluster].namespaces - {namespace};
      if namespaces == {} then s - {cluster} else s[cluster := Entry(false, namespaces)]
  }

  datatype Edit = Toggle(cluster: Id) | Add(cluster: Id, namespace: Id) | Remove(cluster: Id, namespace: Id)

  function ApplyEdit(s: AccessState, e: Edit): AccessState {
    match e
    case Toggle(c) => ToggleFull(s, c)
    case Add(c, n) => AddNamespace(s, c, n)
    case Remove(c, n) => RemoveNamespace(s, c, n)
  }

  function ApplyEdits(s: AccessState, edits: seq<Edit>): AccessState
    decreases |edits|
  {
    if edits == [] then s else ApplyEdits(ApplyEdit(s, edits[0]), edits[1..])
  }

  /** Edits are applied one after another. */
  lemma {:induction false} EditsGoOn(s: AccessState, edits: seq<Edit>, last: Edit)
    ensures ApplyEdits(s, edits + [last]) == ApplyEdit(ApplyEdits(s, edits), last) && ApplyEdits(s, []) == s
    decreases |edits|
  {
    if edits == [] {
      assert [] + [last] == [last] && [last][1..] == [];
    } else {
      assert (edits + [last])[1..] == edits[1..] + [last];
      EditsGoOn(ApplyEdit(s, edits[0]), edits[1..], last);
    }
  }

  /** Every run of the editor, from whatever rows were stored, keeps each entry either full with no
      namespaces or partial with at least one. */
  lemma {:induction false} EveryRunIsValid(s: AccessState, edits: seq<Edit>)
    requires Valid(s)
    ensures Valid(ApplyEdits(s, edits))
    decreases |edits|
  {
    if edits != [] {
      assert Valid(ApplyEdit(s, edits[0])) by {
        if edits[0].Add? {
          var e := edits[0];
          assert e.namespace in AddNamespace(s, e.cluster, e.namespace)[e.cluster].namespaces;
        }
      }
      EveryRunIsValid(ApplyEdit(s, edits[0]), edits[1..]);
    }
  }

  /** What each edit does to what is granted. Adding a namespace to a fully granted cluster narrows it
      to that namespace; removing one from a fully granted cluster does nothing. */
  lemma EditMeaning(s: AccessState, e: Edit, c: Id, n: Id)
    ensures c != e.cluster ==> (Shows(ApplyEdit(s, e), c, n) <==> Shows(s, c, n))
    ensures c == e.cluster ==> (Shows(ApplyEdit(s, e), c, n) <==>
      match e
      case Toggle(_) => !(c in s && s[c].full)
      case Add(_, added) => n == added || (Shows(s, c, n) && !s[c].full)
      case Remove(_, removed) => Shows(s, c, n) && (s[c].full || n != removed))
  {}

  /* Saving. */

  ghost predicate InState(s: AccessState, row: GrantRow) {
    row.cluster in s &&
    match row.namespace
    case None => s[row.cluster].full
    case Some(n) => !s[row.cluster].full && n in s[row.cluster].namespaces
  }

  /** The rows of a state, each once, in some order. */
  ghost predicate Flattens(s: AccessState, rows: seq<GrantRow>) {
    NoDuplicates(rows) && forall row :: row in rows <==> InState(s, row)
  }

  /** The flattening loop of handleSave, for any order of keys and set elements. */
  method Save(access: AccessState) returns (grants: seq<GrantRow>)
    ensures Flattens(access, grants)
  {
    grants := [];
    var left := access.Keys;
    while left != {}
      invariant left <= access.Keys
      invariant NoDuplicates(grants)
      invariant forall row :: row in grants <==> InState(access, row) && row.cluster !in left
      decreases left
    {
      var c :| c in left;
      left := left - {c};
      if access[c].full {
        grants := grants + [Row(c, None)];
      } else {
        var pending := access[c].namespaces;
        while pending != {}
          invariant pending <= access[c].namespaces
          invariant NoDuplicates(grants)
          invariant forall row :: row in grants <==>
            InState(access, row) && row.cluster !in left &&
              (row.cluster == c ==> row.namespace.Some? && row.namespace.value !in pending)
          decreases pending
        {
          var n :| n in pending;
          pending := pending - {n};
          grants := grants + [Row(c, Some(n))];
        }
      }
    }
  }

  /** Saving and reloading gives the same state back, in whatever order the rows return. */
  lemma SaveThenLoad(s: AccessState, rows: seq<GrantRow>)
    requires Valid(s) && forall row :: row in rows <==> InState(s, row)
    ensures Loaded(rows) == s
  {
    forall c ensures c in Clusters(rows) <==> c in s {
      if c in s {
        if s[c].full {
          assert InState(s, Row(c, None));
          assert Row<Id, Id>.Row(c, None) in rows;
        } else {
          var n :| n in s[c].namespaces;
          assert InState(s, Row(c, Some(n)));
          assert Row(c, Some(n)) in rows;
        }
      }
    }
    forall c | c in s ensures Loaded(rows)[c] == s[c] {
      assert InState(s, Row(c, None)) <==> Row(c, None) in rows;
      forall n: Id ensures n in NamespacesOf(rows, c) <==> InState(s, Row(c, Some(n))) {}
    }
  }

  function Requests(rows: seq<GrantRow>): seq<GrantRequest> {
    seq(|rows|, i requires 0 <= i < |rows| => GrantRequest(rows[i].cluster, rows[i].namespace))
  }

  /** A saved list never breaks the unique indexes: the replacement can only fail on something that
      no longer exists. */
  lemma SavedListIsDistinct(s: AccessState, rows: seq<GrantRow>, db: Db, user: Id)
    requires Flattens(s, rows)
    ensures NoDuplicates(Requests(rows))
    ensures CanReplace(db, user, Requests(rows)) <==>
      forall g | g in RequestedGrants(user, Requests(rows)) :: References(db, g)
  {
    var r := Requests(rows);
    forall i, j | 0 <= i < j < |r| ensures r[i] != r[j] {
      assert rows[i] != rows[j];
    }
  }

  /** For stored rows in any order, full and partial mixed: the editor shows as granted exactly what
      some row covers, which is also what the gateway's fold of the rows grants. */
  lemma EditorAgreesWithGateway(rows: seq<GrantRow>, c: Id, n: Id)
    ensures Shows(Loaded(rows), c, n) <==> Covers(rows, c, n)
    ensures Covers(rows, c, n) <==>
      c in Resolved(rows) && (Resolved(rows)[c].fullAccess || n in Resolved(rows)[c].namespaces)
  {
    assert Row(c, None) in rows ==> c in Clusters(rows);
    assert Row(c, Some(n)) in rows ==> Row(c, Some(n)).cluster in Clusters(rows);
  }

  lemma SavedRowsGrant(db: Db, user: Id, s: AccessState, rows: seq<GrantRow>, c: Id, n: Id)
    requires Valid(s) && Flattens(s, rows) && CanReplace(db, user, Requests(rows))
    requires Sound(ReplaceGrants(db, user, Requests(rows)))
    requires c in db.clusters && n in db.namespaces && db.namespaces[n].cluster == c
    ensures
      var after := ReplaceGrants(db, user, Requests(rows));
      Granted(after, Claims(user, db.clusters[c].tenant, false), c, db.namespaces[n].name) <==> Shows(s, c, n)
  {
    var after := ReplaceGrants(db, user, Requests(rows));
    var claims := Claims(user, db.clusters[c].tenant, false);
    var wanted := RequestedGrants(user, Requests(rows));
    if Granted(after, claims, c, db.namespaces[n].name) {
      var g :| g in after.grants && g.user == user && g.cluster == c &&
        (g.namespace.Some? ==> after.namespaces[g.namespace.value].name == db.namespaces[n].name);
      assert g in wanted;
      var i :| 0 <= i < |wanted| && wanted[i] == g;
      assert rows[i] in rows && InState(s, rows[i]);
      assert Linked(after, g);
    }
    if Shows(s, c, n) {
      var row: GrantRow := if s[c].full then Row(c, None) else Row(c, Some(n));
      assert InState(s, row);
      var i :| 0 <= i < |rows| && rows[i] == row;
      assert wanted[i] in after.grants;
    }
  }

  /** End to end: in every run of the handlers, once the PUT of an edited state commits, the gateway gives a session of
      the user a namespace of a cluster of its tenant exactly when it is an administrator's session, for which the saved
      rows make no difference, or the editor showed the namespace as granted. */
  lemma SavedStateIsEnforced(run: Rbac.State, put: nat, s: AccessState, rows: seq<GrantRow>, c: Id, n: Id,
      isAdmin: bool)
    requires Rbac.Inv(run) && put in run.puts && Rbac.ReadyToCommit(run.puts[put])
    requires Valid(s) && Flattens(s, rows) && run.puts[put].request == Requests(rows)
    requires CanReplace(run.db, run.puts[put].user, Requests(rows))
    requires c in run.db.clusters && n in run.db.namespaces && run.db.namespaces[n].cluster == c
    ensures
      var user, after := run.puts[put].user, Rbac.Apply(run, Rbac.PutCommit(put)).db;
      && Sound(after)
      && (Granted(after, Claims(user, run.db.clusters[c].tenant, isAdmin), c, run.db.namespaces[n].name) <==>
            isAdmin || Shows(s, c, n))
  {
    hide Rbac.Inv, Sound, Valid, Flattens, CanReplace, Granted, Shows, ReplaceGrants;
    Rbac.CommitEvolves(run, put);
    SavedRowsGrant(run.db, run.puts[put].user, s, rows, c, n);
    AdministratorsHaveAll(run.db, run.puts[put].user, Requests(rows), c, run.db.namespaces[n].name);
  }

  lemma AdministratorsHaveAll(db: Db, user: Id, request: seq<GrantRequest>, c: Id, namespace: string)
    requires CanReplace(db, user, request) && Sound(ReplaceGrants(db, user, request)) && c in db.clusters
    ensures Granted(ReplaceGrants(db, user, request), Claims(user, db.clusters[c].tenant, true), c, namespace)
  {}
}
