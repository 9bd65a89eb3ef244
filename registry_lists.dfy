/**
 * The two lists inside a registry document and what one upsert does to them:
 * the `categories` list gets a category appended when it is missing, and the
 * `servers` list gets an entry either written over the first record with the
 * same id or appended at the end.
 */
module RegistryLists {
  import opened Wrappers

  /**
   * One record of the registry's `servers` list. `id` is the record's `"id"`
   * when it is a string; a record without an `"id"` key (or with a `null` or
   * non-string one) has `None`, which no entry's id can equal. `body` stands
   * for every other field of the record, which the upsert never inspects.
   */
  datatype Server = Server(id: Option<string>, body: string)

  /** No category occurs twice. */
  ghost predicate NoDuplicates(categories: seq<string>) {
    forall i, j :: 0 <= i < j < |categories| ==> categories[i] != categories[j]
  }

  /** No two records carry the same id; records without an id are not constrained. */
  ghost predicate UniqueIds(servers: seq<Server>) {
    forall i, j :: 0 <= i < j < |servers| && servers[i].id.Some? ==> servers[i].id != servers[j].id
  }

  // ---------------------------------------------------------------- categories

  /**
   * The `categories` list after the category is added when absent
   * (sync.py:116-117): the old list is kept as a prefix, the category is
   * present, and at most one element is added.
   */
  function WithCategory(categories: seq<string>, category: string): (r: seq<string>)
    ensures category in r
    ensures |categories| <= |r| <= |categories| + 1
    ensures r[..|categories|] == categories
    ensures category in categories ==> r == categories
    ensures NoDuplicates(categories) ==> NoDuplicates(r)
  {
    if category in categories then categories else categories + [category]
  }

  /** A missing category is appended last, and the list grows by exactly one. */
  lemma CategoryAppendedWhenAbsent(categories: seq<string>, category: string)
    requires category !in categories
    ensures WithCategory(categories, category) == categories + [category]
    ensures |WithCategory(categories, category)| == |categories| + 1
  {
  }

  /** Adding the same category a second time changes nothing. */
  lemma CategoryIdempotent(categories: seq<string>, category: string)
    ensures WithCategory(WithCategory(categories, category), category) == WithCategory(categories, category)
  {
  }

  // ------------------------------------------------------------------- servers

  /**
   * The index of the first record whose id is `id`, or `None` when no record
   * has it: the order in which the loop at sync.py:121-126 examines the list.
   */
  function FirstMatch(servers: seq<Server>, id: string): (r: Option<nat>)
    ensures r.Some? ==> r.value < |servers| && servers[r.value].id == Some(id)
    ensures r.Some? ==> forall j :: 0 <= j < r.value ==> servers[j].id != Some(id)
    ensures r.None? <==> forall j :: 0 <= j < |servers| ==> servers[j].id != Some(id)
  {
    if |servers| == 0 then None
    else if servers[0].id == Some(id) then Some(0)
    else match FirstMatch(servers[1..], id)
      case Some(k) => Some(k + 1)
      case None => None
  }

  /** A first match is unique: any index that is a match with no match before it is the one found. */
  lemma FirstMatchIsFirst(servers: seq<Server>, id: string, i: nat)
    requires i < |servers| && servers[i].id == Some(id)
    requires forall j :: 0 <= j < i ==> servers[j].id != Some(id)
    ensures FirstMatch(servers, id) == Some(i)
  {
  }

  /**
   * The `servers` list after the entry is upserted (sync.py:119-131): the
   * entry is in it, it is at most one longer, and every record whose id is not
   * the entry's, in particular every record without an id, stays where it was.
   */
  function Upserted(servers: seq<Server>, entry: Server): (r: seq<Server>)
    requires entry.id.Some?
    ensures entry in r
    ensures |servers| <= |r| <= |servers| + 1
    ensures forall j :: 0 <= j < |servers| && servers[j].id != entry.id ==> r[j] == servers[j]
  {
    match FirstMatch(servers, entry.id.value)
    case Some(i) =>
      assert servers[i := entry][i] == entry;
      servers[i := entry]
    case None => servers + [entry]
  }

  /**
   * When some record has the entry's id, the first such record, at index `i`,
   * is replaced by the entry; every other index, including a later record with
   * the same id, is unchanged, and so is the length.
   */
  lemma UpsertReplacesFirst(servers: seq<Server>, entry: Server, i: nat)
    requires entry.id.Some?
    requires i < |servers| && servers[i].id == entry.id
    requires forall j :: 0 <= j < i ==> servers[j].id != entry.id
    ensures |Upserted(servers, entry)| == |servers|
    ensures Upserted(servers, entry)[i] == entry
    ensures forall j :: 0 <= j < |servers| && j != i ==> Upserted(servers, entry)[j] == servers[j]
  {
    FirstMatchIsFirst(servers, entry.id.value, i);
  }

  /** When no record has the entry's id, the entry is appended last. */
  lemma UpsertAppends(servers: seq<Server>, entry: Server)
    requires entry.id.Some?
    requires forall j :: 0 <= j < |servers| ==> servers[j].id != entry.id
    ensures Upserted(servers, entry) == servers + [entry]
    ensures |Upserted(servers, entry)| == |servers| + 1
  {
  }

  /**
   * If ids were unique before the upsert they are unique after it, so exactly
   * one record carries the entry's id: the entry itself.
   */
  lemma {:induction false} UpsertKeepsUnique(servers: seq<Server>, entry: Server)
    requires entry.id.Some?
    requires UniqueIds(servers)
    ensures UniqueIds(Upserted(servers, entry))
    ensures forall k :: 0 <= k < |Upserted(servers, entry)| ==>
              (Upserted(servers, entry)[k].id == entry.id <==> Upserted(servers, entry)[k] == entry)
  {
    var r := Upserted(servers, entry);
    match FirstMatch(servers, entry.id.value)
    case Some(i) =>
      assert r == servers[i := entry];
    case None =>
      assert r == servers + [entry];
  }

  /** Upserting the same entry a second time changes nothing. */
  lemma {:induction false} UpsertIdempotent(servers: seq<Server>, entry: Server)
    requires entry.id.Some?
    ensures Upserted(Upserted(servers, entry), entry) == Upserted(servers, entry)
  {
    var id := entry.id.value;
    var once := Upserted(servers, entry);
    match FirstMatch(servers, id)
    case Some(i) =>
      assert once == servers[i := entry];
      FirstMatchIsFirst(once, id, i);
    case None =>
      assert once == servers + [entry];
      FirstMatchIsFirst(once, id, |servers|);
  }

  /**
   * The upsert does not remove duplicates already in the list: of two records
   * with the entry's id only the first is replaced, so the result still holds
   * two records with that id.
   */
  lemma LaterDuplicateSurvives()
    ensures var entry := Server(Some("a"), "new");
            var servers := [Server(Some("a"), "first"), Server(Some("a"), "second")];
            Upserted(servers, entry) == [entry, Server(Some("a"), "second")]
            && !UniqueIds(Upserted(servers, entry))
  {
    var entry := Server(Some("a"), "new");
    var servers := [Server(Some("a"), "first"), Server(Some("a"), "second")];
    FirstMatchIsFirst(servers, "a", 0);
    var r := Upserted(servers, entry);
    assert r == [entry, servers[1]];
    assert r[0].id.Some? && r[0].id == r[1].id;
  }
}
