/**
 * The registry document that `create_jokes_server_json` loads or creates,
 * updates in memory and writes back: its timestamp is refreshed, the entry's
 * category is added when missing, and the entry is upserted into `servers`.
 */
module Sync {
  import opened Wrappers
  import opened RegistryLists

  /** The category the script files its entry under. */
  const JokesCategory: string := "Entertainment"

  /** The top-level keys that have fields of their own in `Registry`. */
  const UpdatedKeys: set<string> := {"lastUpdated", "categories", "servers"}

  /** The top-level keys of a new registry other than the three the upsert writes (sync.py:101-104). */
  function ScaffoldHeader(): (h: map<string, string>)
    ensures h.Keys == {"version", "name", "description"}
    ensures h["version"] == "2.0"
  {
    map["version" := "2.0",
        "name" := "MCP Registry",
        "description" := "Community registry of Model Context Protocol servers"]
  }

  /**
   * A registry document held in memory. `others` holds every top-level key
   * other than `lastUpdated`, `categories` and `servers`, each with its value
   * as opaque text; those three keys may be missing from a loaded document,
   * hence the options. `Valid` keeps `others` apart from the three, so that
   * every key has one value, as in a parsed JSON object.
   */
  class Registry {
    var others: map<string, string>
    var lastUpdated: Option<string>
    var categories: Option<seq<string>>
    var servers: Option<seq<Server>>

    /** No key is held both in `others` and in a field of its own. */
    ghost predicate Valid()
      reads this
    {
      others.Keys !! UpdatedKeys
    }

    /** The registry used when none exists on disk (sync.py:100-108). */
    constructor Scaffold()
      ensures Valid()
      ensures others == ScaffoldHeader()
      ensures lastUpdated == Some("")
      ensures categories == Some([]) && servers == Some([])
    {
      others := ScaffoldHeader();
      lastUpdated := Some("");
      categories := Some([]);
      servers := Some([]);
    }

    /** A registry as parsed from an existing file (sync.py:96-98). */
    constructor Loaded(others: map<string, string>, lastUpdated: Option<string>,
                       categories: Option<seq<string>>, servers: Option<seq<Server>>)
      requires others.Keys !! UpdatedKeys
      ensures Valid()
      ensures this.others == others && this.lastUpdated == lastUpdated
      ensures this.categories == categories && this.servers == servers
    {
      this.others := others;
      this.lastUpdated := lastUpdated;
      this.categories := categories;
      this.servers := servers;
    }

    /** Records the time of this run (sync.py:113). */
    method Touch(timestamp: string)
      requires Valid()
      modifies this`lastUpdated
      ensures Valid()
      ensures lastUpdated == Some(timestamp)
    {
      lastUpdated := Some(timestamp);
    }

    /**
     * Appends the category when it is not already listed, creating the list
     * when the key is missing (sync.py:116-117).
     */
    method AddCategory(category: string)
      requires Valid()
      modifies this`categories
      ensures Valid()
      ensures categories == Some(WithCategory(old(categories).GetOr([]), category))
    {
      var current := categories.GetOr([]);
      if category !in current {
        categories := Some(current + [category]);
      }
    }

    /**
     * Scans `servers` in order and overwrites the first record with the
     * entry's id; when the scan finds none, appends the entry, creating the
     * list when the key is missing (sync.py:119-131).
     */
    method UpsertServer(entry: Server)
      requires Valid() && entry.id.Some?
      modifies this`servers
      ensures Valid()
      ensures servers == Some(Upserted(old(servers).GetOr([]), entry))
    {
      var list := servers.GetOr([]);
      var serverExists := false;
      for i := 0 to |list|
        invariant !serverExists && servers == old(servers)
        invariant forall j :: 0 <= j < i ==> list[j].id != entry.id
      {
        if list[i].id == entry.id {
          servers := Some(list[i := entry]);
          serverExists := true;
          FirstMatchIsFirst(list, entry.id.value, i);
          break;
        }
      }
      if !serverExists {
        servers := Some(servers.GetOr([]) + [entry]);
      }
    }

    /**
     * The in-memory update of one run (sync.py:113-131): the three steps in
     * the source's order; no other key is touched.
     */
    method Upsert(entry: Server, category: string, timestamp: string)
      requires Valid() && entry.id.Some?
      modifies this
      ensures Valid()
      ensures others == old(others)
      ensures lastUpdated == Some(timestamp)
      ensures categories == Some(WithCategory(old(categories).GetOr([]), category))
      ensures servers == Some(Upserted(old(servers).GetOr([]), entry))
    {
      Touch(timestamp);
      AddCategory(category);
      UpsertServer(entry);
    }
  }

  /**
   * One run of the script with the file reads and writes taken out: `existing`
   * is the registry loaded from disk, or `null` when there is no file, and the
   * result is the document that would be written back (sync.py:96-131).
   */
  method CreateOrUpdate(existing: Registry?, entry: Server, category: string, timestamp: string)
      returns (registry: Registry)
    requires existing != null ==> existing.Valid()
    requires entry.id.Some?
    modifies existing
    ensures registry.Valid()
    ensures existing != null ==> registry == existing
    ensures existing == null ==> fresh(registry)
    ensures existing == null ==>
              registry.others == ScaffoldHeader() && registry.lastUpdated == Some(timestamp)
              && registry.categories == Some([category]) && registry.servers == Some([entry])
    ensures existing != null ==>
              registry.others == old(existing.others) && registry.lastUpdated == Some(timestamp)
              && registry.categories == Some(WithCategory(old(existing.categories).GetOr([]), category))
              && registry.servers == Some(Upserted(old(existing.servers).GetOr([]), entry))
  {
    if existing == null {
      registry := new Registry.Scaffold();
    } else {
      registry := existing;
    }
    registry.Upsert(entry, category, timestamp);
    if existing == null {
      UpsertAppends([], entry);
      assert [] + [entry] == [entry];
    }
  }

  /**
   * Running the update twice with the same entry and category leaves the
   * same `categories` and `servers` as running it once; only `lastUpdated`
   * moves to the second timestamp.
   */
  method UpsertTwice(registry: Registry, entry: Server, category: string, first: string, second: string)
    requires registry.Valid() && entry.id.Some?
    modifies registry
    ensures registry.Valid()
    ensures registry.others == old(registry.others) && registry.lastUpdated == Some(second)
    ensures registry.categories == Some(WithCategory(old(registry.categories).GetOr([]), category))
    ensures registry.servers == Some(Upserted(old(registry.servers).GetOr([]), entry))
  {
    registry.Upsert(entry, category, first);
    registry.Upsert(entry, category, second);
    CategoryIdempotent(old(registry.categories).GetOr([]), category);
    UpsertIdempotent(old(registry.servers).GetOr([]), entry);
  }

  /**
   * A new registry receives entry A under the script's category; a second run
   * with a new version of A replaces it in place and leaves the categories as
   * they were.
   */
  method ReplaceScenario() {
    var a1 := Server(Some("A"), "x");
    var a2 := Server(Some("A"), "y");
    var registry := CreateOrUpdate(null, a1, JokesCategory, "t1");
    assert registry.servers == Some([a1]) && registry.categories == Some([JokesCategory]);
    registry := CreateOrUpdate(registry, a2, JokesCategory, "t2");
    UpsertReplacesFirst([a1], a2, 0);
    assert registry.servers.value == [a2];
    assert registry.categories == Some([JokesCategory]);
    assert registry.lastUpdated == Some("t2");
  }
}
