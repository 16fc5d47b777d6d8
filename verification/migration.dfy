/** The migration of tenant databases into the main one: store/mongo/migration_2_0_1.go. */
module Migration {
  import opened Bytes

  const FIND_BATCH_SIZE := 255

  /** A document: its other fields, and its tenant field if it has one. */
  datatype Document = Document(fields: string, tenant: Option<string>)

  /** A collection: the documents by identifier. */
  type Documents = map<nat, Document>

  /** A database: its collections by name. */
  type Database = map<string, Documents>

  datatype Write = ReplaceOne(id: nat, replacement: Document)

  function CollectionOf(db: Database, name: string): Documents {
    if name in db then db[name] else map[]
  }

  function WithTenant(d: Document, tenant: string): Document {
    d.(tenant := Some(tenant))
  }

  predicate Has(docs: Documents, id: nat, d: Document) {
    id in docs && docs[id] == d
  }

  /** One upserting replacement. */
  function Upsert(docs: Documents, w: Write): Documents {
    docs[w.id := w.replacement]
  }

  /** Replacements in order. */
  function BulkWrite(docs: Documents, writes: seq<Write>): Documents {
    if writes == [] then docs
    else Upsert(BulkWrite(docs, writes[..|writes| - 1]), writes[|writes| - 1])
  }

  /** The documents of a tenant, tagged. */
  function Tagged(docs: Documents, tenant: string): Documents {
    map id | id in docs :: WithTenant(docs[id], tenant)
  }

  /** Documents without a tenant get the empty one. */
  function Defaulted(docs: Documents): Documents {
    map id | id in docs :: if docs[id].tenant.None? then WithTenant(docs[id], "") else docs[id]
  }

  /** A cursor over a collection delivers each document once, by ascending identifier. */
  ghost predicate CursorOver(ids: seq<nat>, docs: Documents) {
    && (forall i, j | 0 <= i < j < |ids| :: ids[i] < ids[j])
    && (forall id :: id in ids <==> id in docs)
  }

  function WritesFor(ids: seq<nat>, docs: Documents, tenant: string): (writes: seq<Write>)
    requires forall id | id in ids :: id in docs
    ensures |writes| == |ids|
  {
    seq(|ids|, i requires 0 <= i < |ids| => assert ids[i] in ids; ReplaceOne(ids[i], WithTenant(docs[ids[i]], tenant)))
  }

  lemma {:induction false} WritesForSnoc(ids: seq<nat>, docs: Documents, tenant: string, i: nat)
    requires i < |ids| && forall id | id in ids :: id in docs
    ensures WritesFor(ids[..i + 1], docs, tenant)
            == WritesFor(ids[..i], docs, tenant) + [ReplaceOne(ids[i], WithTenant(docs[ids[i]], tenant))]
  {
  }

  /** The tagged documents with these identifiers. */
  function Selected(ids: seq<nat>, docs: Documents, tenant: string): Documents
    requires forall id | id in ids :: id in docs
  {
    map id | id in ids :: WithTenant(docs[id], tenant)
  }

  lemma {:induction false} SelectedSnoc(target: Documents, ids: seq<nat>, docs: Documents, tenant: string, id: nat)
    requires forall i | i in ids + [id] :: i in docs
    ensures target + Selected(ids + [id], docs, tenant)
            == (target + Selected(ids, docs, tenant))[id := WithTenant(docs[id], tenant)]
  {
    var all := target + Selected(ids + [id], docs, tenant);
    var one := (target + Selected(ids, docs, tenant))[id := WithTenant(docs[id], tenant)];
    assert all.Keys == one.Keys;
    assert forall k | k in all :: all[k] == one[k];
  }

  /** Replacements sent one by one put the documents into the target, tagged, whatever was there under
      their identifiers. */
  lemma {:induction false} WritesAddSelected(target: Documents, ids: seq<nat>, docs: Documents, tenant: string)
    requires forall id | id in ids :: id in docs
    ensures BulkWrite(target, WritesFor(ids, docs, tenant)) == target + Selected(ids, docs, tenant)
    ensures forall id | id in ids :: Selected(ids, docs, tenant)[id] == Document(docs[id].fields, Some(tenant))
    decreases |ids|
  {
    if ids == [] {
      assert WritesFor([], docs, tenant) == [];
    } else {
      var init, id := ids[..|ids| - 1], ids[|ids| - 1];
      assert ids == init + [id] && ids[..|ids|] == ids;
      WritesAddSelected(target, init, docs, tenant);
      WritesForSnoc(ids, docs, tenant, |init|);
      BatchSnoc(target, WritesFor(init, docs, tenant), ReplaceOne(id, WithTenant(docs[id], tenant)));
      SelectedSnoc(target, init, docs, tenant, id);
    }
  }

  lemma {:induction false} CursorAddsTagged(target: Documents, ids: seq<nat>, docs: Documents, tenant: string)
    requires CursorOver(ids, docs)
    ensures BulkWrite(target, WritesFor(ids, docs, tenant)) == target + Tagged(docs, tenant)
    ensures forall id | id in docs :: Has(target + Tagged(docs, tenant), id, Document(docs[id].fields, Some(tenant)))
  {
    WritesAddSelected(target, ids, docs, tenant);
    CursorSelectsAll(ids, docs, tenant);
  }

  lemma {:induction false} CursorSelectsAll(ids: seq<nat>, docs: Documents, tenant: string)
    requires CursorOver(ids, docs)
    ensures Selected(ids, docs, tenant) == Tagged(docs, tenant)
  {
    assert Selected(ids, docs, tenant).Keys == Tagged(docs, tenant).Keys;
  }

  lemma {:induction false} BatchSnoc(docs: Documents, writes: seq<Write>, w: Write)
    ensures BulkWrite(docs, writes + [w]) == Upsert(BulkWrite(docs, writes), w)
  {
    assert (writes + [w])[..|writes|] == writes;
  }

  // The migration of one collection over all databases, in the order of the source: main first.

  /** The documents of a tenant's collection. */
  datatype Tenant = Tenant(id: string, docs: Documents)

  function Migrated(docs: Documents, tenants: seq<Tenant>): Documents {
    if tenants == [] then Defaulted(docs)
    else
      var last := tenants[|tenants| - 1];
      Migrated(docs, tenants[..|tenants| - 1]) + Tagged(last.docs, last.id)
  }

  lemma {:induction false} NextWrite(sent: Documents, writes: seq<Write>, target: Documents, ids: seq<nat>,
                                     docs: Documents, tenant: string, i: nat)
    requires i < |ids| && forall id | id in ids :: id in docs
    requires BulkWrite(sent, writes) == BulkWrite(target, WritesFor(ids[..i], docs, tenant))
    ensures BulkWrite(sent, writes + [ReplaceOne(ids[i], WithTenant(docs[ids[i]], tenant))])
            == BulkWrite(target, WritesFor(ids[..i + 1], docs, tenant))
  {
    var w := ReplaceOne(ids[i], WithTenant(docs[ids[i]], tenant));
    WritesForSnoc(ids, docs, tenant, i);
    BatchSnoc(sent, writes, w);
    BatchSnoc(target, WritesFor(ids[..i], docs, tenant), w);
  }

  const COLLECTIONS := {"devices", "sessions", "recordings", "control"}

  /** A tenant's database, with the results of the queries for its collections. */
  datatype Source = Source(tenant: string, db: Database, cursors: map<string, seq<nat>>)

  ghost predicate Queried(source: Source) {
    forall name | name in COLLECTIONS ::
      name in source.cursors && CursorOver(source.cursors[name], CollectionOf(source.db, name))
  }

  /** What the tenants have in the collection of this name. */
  function TenantsOf(sources: seq<Source>, name: string): (tenants: seq<Tenant>)
    ensures |tenants| == |sources|
  {
    seq(|sources|, i requires 0 <= i < |sources| => Tenant(sources[i].tenant, CollectionOf(sources[i].db, name)))
  }

  /** `i` is the last database whose collection of this name has a document of this identifier. */
  predicate LastSource(sources: seq<Source>, name: string, id: nat, i: nat) {
    && i < |sources| && id in CollectionOf(sources[i].db, name)
    && forall j | i < j < |sources| :: id !in CollectionOf(sources[j].db, name)
  }

  lemma {:induction false} TenantsOfSnoc(sources: seq<Source>, i: nat, name: string)
    requires i < |sources|
    ensures TenantsOf(sources[..i + 1], name)
            == TenantsOf(sources[..i], name) + [Tenant(sources[i].tenant, CollectionOf(sources[i].db, name))]
  {
  }

  lemma {:induction false} MigratedSnoc(docs: Documents, tenants: seq<Tenant>, t: Tenant)
    ensures Migrated(docs, tenants + [t]) == Migrated(docs, tenants) + Tagged(t.docs, t.id)
  {
    assert (tenants + [t])[..|tenants|] == tenants;
  }

  lemma {:induction false} NextSource(docs: Documents, sources: seq<Source>, i: nat, name: string)
    requires i < |sources|
    ensures Migrated(docs, TenantsOf(sources[..i + 1], name))
            == Migrated(docs, TenantsOf(sources[..i], name))
               + Tagged(CollectionOf(sources[i].db, name), sources[i].tenant)
  {
    TenantsOfSnoc(sources, i, name);
    MigratedSnoc(docs, TenantsOf(sources[..i], name), Tenant(sources[i].tenant, CollectionOf(sources[i].db, name)));
  }

  lemma {:induction false} LastSourceTagged(docs: Documents, sources: seq<Source>, name: string, id: nat, i: nat)
    requires LastSource(sources, name, id, i)
    ensures Has(Migrated(docs, TenantsOf(sources, name)), id,
                Document(CollectionOf(sources[i].db, name)[id].fields, Some(sources[i].tenant)))
  {
    MigratedOwned(docs, TenantsOf(sources, name), id, i);
  }

  /** The server, with the main database it holds. */
  class Client {
    var main: Database

    constructor (main: Database)
      ensures this.main == main
    {
      this.main := main;
    }

    method Send(name: string, writes: seq<Write>)
      modifies this
      ensures main == old(main)[name := CollectionOf(main, name)]
      ensures CollectionOf(main, name) == BulkWrite(CollectionOf(old(main), name), writes)
      ensures forall other | other != name :: CollectionOf(main, other) == CollectionOf(old(main), other)
    {
      var docs := CollectionOf(main, name);
      var i := 0;
      while i < |writes|
        invariant 0 <= i <= |writes|
        invariant docs == BulkWrite(CollectionOf(main, name), writes[..i])
        invariant main == old(main)
      {
        assert writes[..i + 1][..i] == writes[..i];
        docs := Upsert(docs, writes[i]);
        i := i + 1;
      }
      assert writes[..i] == writes;
      main := main[name := docs];
    }

    /** Copies one collection of a tenant in batches. `cursor` is the result of the query. */
    method CopyCollection(name: string, docs: Documents, cursor: seq<nat>, tenant: string)
      requires CursorOver(cursor, docs)
      modifies this
      ensures CollectionOf(main, name) == CollectionOf(old(main), name) + Tagged(docs, tenant)
      ensures forall id | id in docs :: Has(CollectionOf(main, name), id, Document(docs[id].fields, Some(tenant)))
      ensures forall other | other != name :: CollectionOf(main, other) == CollectionOf(old(main), other)
    {
      ghost var target := CollectionOf(main, name);
      var writes: seq<Write> := [];
      var i := 0;
      while i < |cursor|
        invariant 0 <= i <= |cursor| && |writes| < FIND_BATCH_SIZE
        invariant BulkWrite(CollectionOf(main, name), writes) == BulkWrite(target, WritesFor(cursor[..i], docs, tenant))
        invariant forall other | other != name :: CollectionOf(main, other) == CollectionOf(old(main), other)
      {
        var id := cursor[i];
        assert id in cursor;
        var w := ReplaceOne(id, WithTenant(docs[id], tenant));
        NextWrite(CollectionOf(main, name), writes, target, cursor, docs, tenant, i);
        writes := writes + [w];
        i := i + 1;
        if |writes| == FIND_BATCH_SIZE {
          Send(name, writes);
          writes := [];
        }
      }
      assert cursor[..i] == cursor;
      if |writes| > 0 {
        Send(name, writes);
      }
      CursorAddsTagged(target, cursor, docs, tenant);
    }

    /** The migration of the main database itself. */
    method UpMain()
      modifies this
      ensures forall name :: CollectionOf(main, name) ==
                if name in COLLECTIONS then Defaulted(CollectionOf(old(main), name)) else CollectionOf(old(main), name)
      ensures forall name, id | name in COLLECTIONS && id in CollectionOf(old(main), name) ::
                var d := CollectionOf(old(main), name)[id];
                Has(CollectionOf(main, name), id, if d.tenant.None? then Document(d.fields, Some("")) else d)
    {
      var todo := COLLECTIONS;
      while todo != {}
        invariant todo <= COLLECTIONS
        invariant forall name :: CollectionOf(main, name) ==
                    if name in COLLECTIONS - todo then Defaulted(CollectionOf(old(main), name))
                    else CollectionOf(old(main), name)
        decreases todo
      {
        var name :| name in todo;
        main := main[name := Defaulted(CollectionOf(main, name))];
        todo := todo - {name};
      }
    }

    /** The migration of a tenant's database, for any order of the collections. */
    method UpTenant(source: Source)
      requires Queried(source)
      modifies this
      ensures forall name :: CollectionOf(main, name) ==
                if name in COLLECTIONS
                then CollectionOf(old(main), name) + Tagged(CollectionOf(source.db, name), source.tenant)
                else CollectionOf(old(main), name)
      ensures forall name, id | name in COLLECTIONS && id in CollectionOf(source.db, name) ::
                var d := CollectionOf(source.db, name)[id];
                Has(CollectionOf(main, name), id, Document(d.fields, Some(source.tenant)))
    {
      var todo := COLLECTIONS;
      while todo != {}
        invariant todo <= COLLECTIONS
        invariant forall name :: CollectionOf(main, name) ==
                    if name in COLLECTIONS - todo
                    then CollectionOf(old(main), name) + Tagged(CollectionOf(source.db, name), source.tenant)
                    else CollectionOf(old(main), name)
        decreases todo
      {
        var name :| name in todo;
        CopyCollection(name, CollectionOf(source.db, name), source.cursors[name], source.tenant);
        todo := todo - {name};
      }
    }

    /** The migration of the main database and then of every tenant's. */
    method Migrate(sources: seq<Source>)
      requires forall s | s in sources :: Queried(s)
      modifies this
      ensures forall name | name in COLLECTIONS ::
                CollectionOf(main, name) == Migrated(CollectionOf(old(main), name), TenantsOf(sources, name))
      ensures forall name | name !in COLLECTIONS :: CollectionOf(main, name) == CollectionOf(old(main), name)
      ensures forall name, i: nat, id |
                (name == "devices" || name == "sessions" || name == "recordings" || name == "control")
                && LastSource(sources, name, id, i) ::
                var d := CollectionOf(sources[i].db, name)[id];
                Has(CollectionOf(main, name), id, Document(d.fields, Some(sources[i].tenant)))
    {
      UpMain();
      var i := 0;
      while i < |sources|
        invariant 0 <= i <= |sources|
        invariant forall name | name in COLLECTIONS ::
                    CollectionOf(main, name) == Migrated(CollectionOf(old(main), name), TenantsOf(sources[..i], name))
        invariant forall name | name !in COLLECTIONS :: CollectionOf(main, name) == CollectionOf(old(main), name)
      {
        UpTenant(sources[i]);
        forall name | name in COLLECTIONS
          ensures CollectionOf(main, name)
                  == Migrated(CollectionOf(old(main), name), TenantsOf(sources[..i + 1], name))
        {
          NextSource(CollectionOf(old(main), name), sources, i, name);
        }
        i := i + 1;
      }
      assert sources[..i] == sources;
      forall name, i: nat, id | name in COLLECTIONS && LastSource(sources, name, id, i)
        ensures var d := CollectionOf(sources[i].db, name)[id];
                Has(CollectionOf(main, name), id, Document(d.fields, Some(sources[i].tenant)))
      {
        LastSourceTagged(CollectionOf(old(main), name), sources, name, id, i);
      }
    }
  }

  predicate Disjoint(tenants: seq<Tenant>) {
    forall i, j | 0 <= i < j < |tenants| :: tenants[i].docs.Keys !! tenants[j].docs.Keys
  }

  /** `i` is the last tenant with a document of this identifier. */
  predicate LastOwner(tenants: seq<Tenant>, id: nat, i: nat) {
    i < |tenants| && id in tenants[i].docs && forall j | i < j < |tenants| :: id !in tenants[j].docs
  }

  predicate Unowned(tenants: seq<Tenant>, id: nat) {
    forall i | 0 <= i < |tenants| :: id !in tenants[i].docs
  }

  /** A document of some tenant comes from the last one that has its identifier, tagged with it. */
  lemma {:induction false} MigratedOwned(docs: Documents, tenants: seq<Tenant>, id: nat, i: nat)
    requires LastOwner(tenants, id, i)
    ensures id in Migrated(docs, tenants)
    ensures Migrated(docs, tenants)[id] == Document(tenants[i].docs[id].fields, Some(tenants[i].id))
    decreases |tenants|
  {
    if i < |tenants| - 1 {
      MigratedOwned(docs, tenants[..|tenants| - 1], id, i);
    }
  }

  /** Any other document is one of the main database, with the empty tenant if it had none. */
  lemma {:induction false} MigratedUnowned(docs: Documents, tenants: seq<Tenant>, id: nat)
    requires Unowned(tenants, id)
    ensures id in Migrated(docs, tenants) <==> id in docs
    ensures id in docs ==>
              Migrated(docs, tenants)[id]
              == if docs[id].tenant.None? then Document(docs[id].fields, Some("")) else docs[id]
    decreases |tenants|
  {
    if tenants != [] {
      MigratedUnowned(docs, tenants[..|tenants| - 1], id);
    }
  }

  lemma {:induction false} OwnerOrNone(tenants: seq<Tenant>, id: nat) returns (i: nat)
    ensures Unowned(tenants, id) || LastOwner(tenants, id, i)
    decreases |tenants|
  {
    i := 0;
    if tenants != [] {
      i := |tenants| - 1;
      if id !in tenants[i].docs {
        var init := tenants[..i];
        i := OwnerOrNone(init, id);
        assert forall j | 0 <= j < |init| :: init[j] == tenants[j];
      }
    }
  }

  /** With identifiers that no two tenants share, every tenant document ends up in the main database,
      tagged with its tenant. */
  lemma {:induction false} EveryTenantDocumentTagged(docs: Documents, tenants: seq<Tenant>, i: nat, id: nat)
    requires Disjoint(tenants) && i < |tenants| && id in tenants[i].docs
    ensures id in Migrated(docs, tenants)
    ensures Migrated(docs, tenants)[id] == Document(tenants[i].docs[id].fields, Some(tenants[i].id))
  {
    assert forall j | i < j < |tenants| :: tenants[i].docs.Keys !! tenants[j].docs.Keys;
    MigratedOwned(docs, tenants, id, i);
  }

  lemma {:induction false} AllHaveTenant(docs: Documents, tenants: seq<Tenant>)
    ensures forall id | id in Migrated(docs, tenants) :: Migrated(docs, tenants)[id].tenant.Some?
    decreases |tenants|
  {
    if tenants != [] {
      AllHaveTenant(docs, tenants[..|tenants| - 1]);
    }
  }

  /** Running the migration again changes nothing. */
  lemma {:induction false} MigrationIsIdempotent(docs: Documents, tenants: seq<Tenant>)
    ensures Migrated(Migrated(docs, tenants), tenants) == Migrated(docs, tenants)
  {
    var once := Migrated(docs, tenants);
    AllHaveTenant(docs, tenants);
    assert Defaulted(once) == once;
    forall id
      ensures id in Migrated(once, tenants) <==> id in once
      ensures id in once ==> Migrated(once, tenants)[id] == once[id]
    {
      var i := OwnerOrNone(tenants, id);
      if Unowned(tenants, id) {
        MigratedUnowned(docs, tenants, id);
        MigratedUnowned(once, tenants, id);
      } else {
        MigratedOwned(docs, tenants, id, i);
        MigratedOwned(once, tenants, id, i);
      }
    }
  }
}
