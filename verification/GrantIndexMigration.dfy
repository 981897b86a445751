/** What migration 0003 does to stored grants (backend/migrations/0003_access_grants_null_uniqueness.sql):
    a DELETE keeps one row of every group of equal rows, so that the two partial unique indexes can
    be created over what is left. */
module GrantIndexMigration {
  import opened Text
  import opened Tables

  datatype StoredGrant = StoredGrant(id: Id, grant: Grant)

  predicate DistinctIds(rows: seq<StoredGrant>) {
    forall i, j | 0 <= i < j < |rows| :: rows[i].id != rows[j].id
  }

  function GrantsIn(rows: seq<StoredGrant>): seq<Grant> {
    seq(|rows|, i requires 0 <= i < |rows| => rows[i].grant)
  }

  /** The constraint of migration 0001: NULL is distinct from NULL. */
  predicate OldUnique(grants: seq<Grant>) {
    forall i, j | 0 <= i < j < |grants| && grants[i].namespace.Some? :: grants[i] != grants[j]
  }

  /** Row `a` has an equal row with a smaller id. */
  predicate Superseded(a: StoredGrant, rows: seq<StoredGrant>) {
    exists b | b in rows :: a.id > b.id && a.grant == b.grant
  }

  function Survives(rows: seq<StoredGrant>): StoredGrant -> bool {
    (a: StoredGrant) => !Superseded(a, rows)
  }

  function Deduplicated(rows: seq<StoredGrant>): seq<StoredGrant> {
    Filter(rows, Survives(rows))
  }

  /** The row of a group with the least id. */
  lemma {:induction false} LeastOf(rows: seq<StoredGrant>, grant: Grant, bound: Id) returns (least: StoredGrant)
    requires exists a | a in rows :: a.grant == grant && a.id <= bound
    ensures least in rows && least.grant == grant && !Superseded(least, rows)
    decreases bound
  {
    var a :| a in rows && a.grant == grant && a.id <= bound;
    if Superseded(a, rows) {
      var b :| b in rows && a.id > b.id && a.grant == b.grant;
      least := LeastOf(rows, grant, bound - 1);
    } else {
      least := a;
    }
  }

  /** After the DELETE both indexes hold, and exactly the same access is granted. */
  lemma MigrationIsSafe(rows: seq<StoredGrant>)
    requires DistinctIds(rows)
    ensures UniqueIndexes(GrantsIn(Deduplicated(rows)))
    ensures forall g :: g in GrantsIn(Deduplicated(rows)) <==> g in GrantsIn(rows)
    ensures forall a | a in Deduplicated(rows), b | b in rows :: a.grant == b.grant ==> a.id <= b.id
  {
    var kept := Deduplicated(rows);
    assert NoDuplicates(rows);
    FilterKeepsDistinct(rows, Survives(rows));
    var grants := GrantsIn(kept);
    forall i, j | 0 <= i < j < |grants| ensures grants[i] != grants[j] {
      assert kept[i] in kept && kept[j] in kept && kept[i] != kept[j];
      assert !Superseded(kept[i], rows) && !Superseded(kept[j], rows);
      var x :| 0 <= x < |rows| && rows[x] == kept[i];
      var y :| 0 <= y < |rows| && rows[y] == kept[j];
      assert x != y;
    }
    UniqueIndexesMeanDistinct(grants);
    hide UniqueIndexes, NoDuplicates;
    forall g | g in GrantsIn(rows) ensures g in grants {
      var i :| 0 <= i < |rows| && rows[i].grant == g;
      assert rows[i] in rows;
      var least := LeastOf(rows, g, rows[i].id);
      var j :| 0 <= j < |kept| && kept[j] == least;
      assert grants[j] == g;
    }
    forall g | g in grants ensures g in GrantsIn(rows) {
      var j :| 0 <= j < |grants| && grants[j] == g;
      assert kept[j] in rows;
      var i :| 0 <= i < |rows| && rows[i] == kept[j];
      assert GrantsIn(rows)[i] == g;
    }
  }

  /** The old constraint was the second index alone; so the DELETE removes nothing but full-cluster grants. */
  lemma OldConstraintMissesFullGrants(rows: seq<StoredGrant>)
    ensures OldUnique(GrantsIn(rows)) <==> ScopedIndex(GrantsIn(rows))
    ensures OldUnique(GrantsIn(rows)) ==> forall a | a in rows && a !in Deduplicated(rows) :: a.grant.namespace.None?
  {
    var grants := GrantsIn(rows);
    if ScopedIndex(grants) {
      forall i, j | 0 <= i < j < |grants| && grants[i].namespace.Some? ensures grants[i] != grants[j] {
        if grants[j].namespace.Some? {
          assert (grants[i].user, grants[i].cluster, grants[i].namespace) !=
            (grants[j].user, grants[j].cluster, grants[j].namespace);
        }
      }
    }
    if OldUnique(grants) {
      forall a | a in rows && a !in Deduplicated(rows) ensures a.grant.namespace.None? {
        assert Superseded(a, rows);
        var i, b :| 0 <= i < |rows| && rows[i] == a && b in rows && b.id < a.id && b.grant == a.grant;
        var j :| 0 <= j < |rows| && rows[j] == b;
        assert grants[i] == grants[j] && i != j;
      }
    }
  }
}
