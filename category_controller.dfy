/** The category table and its find-or-create step (routes/categoryController.js,
    and the loop of controllers/postController.js that turns category names into
    ids). A category is found by its exact name; a missing one is created and
    attributed to the acting user. The Category schema itself is not part of
    this model: a category has a name and a creator and nothing is validated. */
module CategoryController {
  import opened Common
  import opened Text
  import opened Tables
  import opened Sorting

  datatype Category = Category(id: Id, name: string, createdBy: Id)

  /** The category collection: its records by id, and the id the next new record gets. */
  datatype CategoryTable = CategoryTable(rows: map<Id, Category>, nextId: Id) {
    /** Keys are below the next id and each record carries its key. */
    ghost predicate Valid() {
      forall k :: k in rows ==> k < nextId && rows[k].id == k
    }

    /** No two records share a name: find-or-create is the only way records
        are added, so `findOne({ name })` has at most one answer. */
    ghost predicate NamesUnique() {
      forall i, j :: i in rows && j in rows && rows[i].name == rows[j].name ==> i == j
    }
  }

  /** Every record of `t` is in `u`, unchanged. */
  ghost predicate Extends(t: CategoryTable, u: CategoryTable) {
    forall k :: k in t.rows ==> k in u.rows && u.rows[k] == t.rows[k]
  }

  /** `Category.findOne({ name })`. */
  function FindByName(t: CategoryTable, name: string): (r: Option<Id>)
    requires t.Valid()
    ensures r.Some? ==> r.value in t.rows && t.rows[r.value].name == name
    ensures r.None? <==> forall k :: k in t.rows ==> t.rows[k].name != name
  {
    FirstKey(t.rows, t.nextId, (c: Category) => c.name == name)
  }

  /** One step of find-or-create: the id of the category called `name`, and
      the table afterwards. */
  function FindOrCreate(t: CategoryTable, name: string, actor: Id): (r: (Id, CategoryTable))
    requires t.Valid()
    ensures r.1.Valid() && Extends(t, r.1)
    ensures r.0 in r.1.rows && r.1.rows[r.0].name == name
    ensures forall k :: k in r.1.rows && k !in t.rows ==> k == r.0 && r.1.rows[k].createdBy == actor
    ensures r.1.nextId >= t.nextId
    ensures FindByName(t, name).Some? ==> r == (FindByName(t, name).value, t)
    ensures FindByName(t, name).None? ==>
      && r.0 == t.nextId && r.0 !in t.rows
      && r.1 == CategoryTable(t.rows[r.0 := Category(r.0, name, actor)], t.nextId + 1)
  {
    match FindByName(t, name)
    case Some(id) => (id, t)
    case None =>
      var id := t.nextId;
      (id, CategoryTable(t.rows[id := Category(id, name, actor)], id + 1))
  }

  /** Find-or-create adds a name only when no record has it, so names stay unique. */
  lemma FindOrCreateKeepsNamesUnique(t: CategoryTable, name: string, actor: Id)
    requires t.Valid() && t.NamesUnique()
    ensures FindOrCreate(t, name, actor).1.NamesUnique()
  {
  }

  /** The find-or-create loop over a list of names, left to right: the ids in
      the order of the names, and the table afterwards. What the ids name and
      who created the new records are stated by ResolveNamesNames and
      ResolveNamesCreated. */
  function ResolveNames(t: CategoryTable, names: seq<string>, actor: Id): (r: (seq<Id>, CategoryTable))
    requires t.Valid()
    ensures r.1.Valid() && Extends(t, r.1)
    ensures |r.0| == |names|
    ensures forall k :: k in r.0 ==> k in r.1.rows
    ensures r.1.nextId >= t.nextId
    decreases |names|
  {
    if names == [] then ([], t)
    else
      var (ids, t1) := ResolveNames(t, names[..|names| - 1], actor);
      var (id, t2) := FindOrCreate(t1, names[|names| - 1], actor);
      (ids + [id], t2)
  }

  /** The last turn of the loop: the loop over all names but the last, then the last name's find-or-create. */
  lemma ResolveNamesLast(t: CategoryTable, names: seq<string>, actor: Id)
    requires t.Valid() && names != []
    ensures var (ids, t1) := ResolveNames(t, names[..|names| - 1], actor);
      var (id, t2) := FindOrCreate(t1, names[|names| - 1], actor);
      ResolveNames(t, names, actor) == (ids + [id], t2)
  {
  }

  /** The i-th id is the id of a category called names[i]. */
  lemma {:induction false} ResolveNamesNames(t: CategoryTable, names: seq<string>, actor: Id)
    requires t.Valid()
    ensures var r := ResolveNames(t, names, actor);
      forall i :: 0 <= i < |names| ==> r.0[i] in r.1.rows && r.1.rows[r.0[i]].name == names[i]
    decreases |names|
  {
    if names != [] {
      var prefix := names[..|names| - 1];
      ResolveNamesNames(t, prefix, actor);
      var (ids, t1) := ResolveNames(t, prefix, actor);
      var (id, t2) := FindOrCreate(t1, names[|names| - 1], actor);
      var r := ids + [id];
      forall i | 0 <= i < |names| ensures r[i] in t2.rows && t2.rows[r[i]].name == names[i] {
        if i < |ids| {
          assert r[i] == ids[i] && prefix[i] == names[i];
        }
      }
    }
  }

  /** Every record the loop adds is one of the returned ids, created by the acting user. */
  lemma {:induction false} ResolveNamesCreated(t: CategoryTable, names: seq<string>, actor: Id)
    requires t.Valid()
    ensures var r := ResolveNames(t, names, actor);
      forall k :: k in r.1.rows && k !in t.rows ==> k in r.0 && r.1.rows[k].createdBy == actor
    decreases |names|
  {
    if names != [] {
      var prefix := names[..|names| - 1];
      ResolveNamesCreated(t, prefix, actor);
      var (ids, t1) := ResolveNames(t, prefix, actor);
      var (id, t2) := FindOrCreate(t1, names[|names| - 1], actor);
      assert forall k :: k in ids ==> k in ids + [id];
    }
  }

  /** The loop keeps the names unique. */
  lemma {:induction false} ResolveNamesKeepsNamesUnique(t: CategoryTable, names: seq<string>, actor: Id)
    requires t.Valid() && t.NamesUnique()
    ensures ResolveNames(t, names, actor).1.NamesUnique()
    decreases |names|
  {
    if names != [] {
      var prefix := names[..|names| - 1];
      ResolveNamesKeepsNamesUnique(t, prefix, actor);
      FindOrCreateKeepsNamesUnique(ResolveNames(t, prefix, actor).1, names[|names| - 1], actor);
    }
  }

  /** A name that already has a category resolves to that category. */
  lemma ResolveReusesExisting(t: CategoryTable, names: seq<string>, actor: Id, i: nat)
    requires t.Valid() && t.NamesUnique() && i < |names|
    requires FindByName(t, names[i]).Some?
    ensures ResolveNames(t, names, actor).0[i] == FindByName(t, names[i]).value
  {
    ResolveNamesKeepsNamesUnique(t, names, actor);
    ResolveNamesNames(t, names, actor);
    var (ids, u) := ResolveNames(t, names, actor);
    var k := FindByName(t, names[i]).value;
    assert u.rows[k].name == names[i] == u.rows[ids[i]].name;
  }

  /** A name repeated within one list resolves to one id: the later occurrence
      finds the category the earlier one found or created. */
  lemma ResolveRepeatedName(t: CategoryTable, names: seq<string>, actor: Id, i: nat, j: nat)
    requires t.Valid() && t.NamesUnique() && i < |names| && j < |names|
    requires names[i] == names[j]
    ensures ResolveNames(t, names, actor).0[i] == ResolveNames(t, names, actor).0[j]
  {
    ResolveNamesKeepsNamesUnique(t, names, actor);
    ResolveNamesNames(t, names, actor);
    var (ids, u) := ResolveNames(t, names, actor);
    assert u.rows[ids[i]].name == u.rows[ids[j]].name;
  }

  /** The loop creates at most one category per name, and none for a name that
      already had one. */
  lemma ResolveCreatesOnePerName(t: CategoryTable, names: seq<string>, actor: Id, k1: Id, k2: Id)
    requires t.Valid() && t.NamesUnique()
    requires var u := ResolveNames(t, names, actor).1;
      k1 in u.rows && k2 in u.rows && k1 !in t.rows && k2 !in t.rows
    ensures var u := ResolveNames(t, names, actor).1;
      u.rows[k1].name == u.rows[k2].name ==> k1 == k2
    ensures var u := ResolveNames(t, names, actor).1;
      FindByName(t, u.rows[k1].name).None?
  {
    ResolveNamesKeepsNamesUnique(t, names, actor);
  }

  /** createCategory twice with one name: the second call finds what the first
      found or created, changes nothing, and exactly one record has that name. */
  lemma FindOrCreateIdempotent(t: CategoryTable, name: string, actor: Id, actor2: Id)
    requires t.Valid() && t.NamesUnique()
    ensures var (id1, t1) := FindOrCreate(t, name, actor);
      && FindOrCreate(t1, name, actor2) == (id1, t1)
      && (forall k :: k in t1.rows && t1.rows[k].name == name ==> k == id1)
  {
  }

  /** The order of getAllCategories: by name, ascending. */
  predicate ByName(a: Category, b: Category) {
    LexLe(a.name, b.name)
  }

  lemma ByNameIsTotalPreorder()
    ensures TotalPreorder(ByName)
  {
    forall a: Category, b: Category ensures ByName(a, b) || ByName(b, a) {
      LexLeTotal(a.name, b.name);
    }
    forall a: Category, b: Category, c: Category | ByName(a, b) && ByName(b, c) ensures ByName(a, c) {
      LexLeTransitive(a.name, b.name, c.name);
    }
  }

  /** getAllCategories: `Category.find().sort({ name: 1 })`, every category once, ordered by name. */
  function ListCategories(t: CategoryTable): (r: seq<Category>)
    requires t.Valid()
    ensures multiset(r) == multiset(Rows(t.rows, t.nextId))
    ensures forall c :: c in r <==> c in t.rows.Values
    ensures SortedBy(r, ByName)
  {
    ByNameIsTotalPreorder();
    SortBySorted(Rows(t.rows, t.nextId), ByName);
    RowsAreValues(t.rows, t.nextId);
    var r := SortBy(Rows(t.rows, t.nextId), ByName);
    assert forall c :: c in r <==> c in multiset(r);
    r
  }
}
