# Registry upsert of `sync.py` (mcpreg)

`sync.py` writes one MCP server descriptor (the "jokes server") to its own
file and merges it into the community registry file `registry.json`. This
project models the merge: the in-memory update that `create_jokes_server_json`
applies to the registry document between reading and writing it.

- When no registry file exists, the document starts as a fixed scaffold:
  version `"2.0"`, name `"MCP Registry"`, a fixed description, an empty
  `lastUpdated`, and empty `categories` and `servers` lists.
- `lastUpdated` is set to the run's timestamp.
- The category is appended to `categories` unless it is already there. The
  list is created if the key is missing.
- `servers` is scanned in order. The first record whose `id` equals the
  entry's id is overwritten in place. If there is none, the entry is appended.
  The list is created if the key is missing.

Layout:

- `wrappers.dfy`: module `Wrappers`, an `Option` type for keys that may be absent.
- `registry_lists.dfy`: module `RegistryLists`, the server record, the pure
  functions that say what the two lists become (`WithCategory`, `FirstMatch`,
  `Upserted`), and the lemmas about them.
- `sync.dfy`: module `Sync`, the class `Registry` whose fields the run updates
  in place, the scan loop with its `server_exists` flag and `break`, the run
  as a whole with "the file exists" taken as an input, and the worked example
  `ReplaceScenario`.

The entry and the category are parameters. The script itself passes its
literal descriptor and `"Entertainment"` (`Sync.JokesCategory`). The entry must
carry an id, because the source reads `jokes_server["id"]` without a default.
A record whose `id` is missing, `null` or not a string is modelled with no id.
Such a record can never equal the entry's string id, so it is never replaced.

The upsert does not remove duplicates. The scan stops at the first record
with the entry's id (sync.py:126), so a later record with the same id
survives (`LaterDuplicateSurvives`). Ids are unique after a run when they were
unique before (`UpsertKeepsUnique`).

`Registry.Valid` keeps the keys held in `others` apart from `lastUpdated`,
`categories` and `servers`, which have fields of their own, so every key of
the model has one value, as in a parsed JSON object. Both constructors
establish it and every method keeps it.

`Sync.ReplaceScenario` is a worked example with no contract of its own. A run
against no file creates the registry with entry A under `JokesCategory`. A
second run with a new version of A replaces it in place, and the categories
stay as they were.

## Model

| member | source | states |
|---|---|---|
| RegistryLists.WithCategory | sync.py:116-117 | the category is in the result; the old list is kept as a prefix; at most one element is added; a category already present leaves the list unchanged; a list without duplicates stays without duplicates |
| RegistryLists.CategoryAppendedWhenAbsent | sync.py:116-117 | a missing category is appended last and the length grows by exactly one |
| RegistryLists.CategoryIdempotent | sync.py:116-117 | adding the same category twice gives the same list as adding it once |
| RegistryLists.FirstMatch | sync.py:120-126 | returns an index whose record has the id and before which no record has it, or none exactly when no record has the id |
| RegistryLists.FirstMatchIsFirst | sync.py:121-126 | any matching index with no match before it is the one the scan stops at |
| RegistryLists.Upserted | sync.py:119-131 | the entry is in the result; the length grows by at most one; every record whose id differs from the entry's, including every record without an id, keeps its index and content |
| RegistryLists.UpsertReplacesFirst | sync.py:121-126 | when the first record with the entry's id is at index i, only index i changes (to the entry); later records with the same id are untouched; the length is unchanged |
| RegistryLists.UpsertAppends | sync.py:129-130 | when no record has the entry's id, the result is the old list with the entry appended last, one longer |
| RegistryLists.UpsertKeepsUnique | sync.py:119-131 | unique ids before imply unique ids after, and the only record with the entry's id is the entry |
| RegistryLists.UpsertIdempotent | sync.py:119-131 | upserting the same entry twice gives the same list as upserting it once |
| RegistryLists.LaterDuplicateSurvives | sync.py:121-126 | with two records sharing the entry's id, only the first is replaced and the result still has a duplicate id |
| Sync.ScaffoldHeader | sync.py:101-104 | the scaffold's static keys are exactly version, name and description, with version "2.0" |
| Sync.Registry.Scaffold | sync.py:100-108 | a new registry has the static header, an empty lastUpdated and empty categories and servers lists |
| Sync.Registry.Loaded | sync.py:96-98 | given parsed top-level keys in which the three updated keys appear only in their own fields (each possibly absent), the registry holds exactly those values and is valid |
| Sync.Registry.Touch | sync.py:113 | lastUpdated becomes the run's timestamp and nothing else changes |
| Sync.Registry.AddCategory | sync.py:116-117 | categories becomes WithCategory of the old list (an absent key read as empty) and nothing else changes |
| Sync.Registry.UpsertServer | sync.py:119-131 | the in-place scan with its flag and break leaves servers equal to Upserted of the old list (an absent key read as empty) and nothing else changes |
| Sync.Registry.Upsert | sync.py:113-131 | after one run: other keys unchanged, lastUpdated is the timestamp, categories and servers are as the two list functions say |
| Sync.CreateOrUpdate | sync.py:96-131 | without a file the result is a fresh scaffold with servers [entry], categories [category] and the timestamp; with one, the loaded registry is updated as Upsert says |
| Sync.UpsertTwice | sync.py:113-131 | two runs with the same entry and category leave the same categories and servers as one run; only lastUpdated differs |

## Left out

- Writing the standalone entry file and creating the `servers` directory (sync.py:80-90): file I/O with no logic.
- Reading and writing `registry.json` and the `exists()` test (sync.py:93-98, 133-135): the existence test becomes the `existing: Registry?` parameter of `CreateOrUpdate`, the parsed file becomes `Registry.Loaded`.
- JSON parsing and serialisation: a parse error is an exception the source only propagates. Key order and indentation of the written file are not modelled.
- A document whose `categories` or `servers` is not a list, or whose server records are not objects. The source raises only when it touches a value of the wrong shape: records after the first match are never read, and a `categories` dictionary or string passes the `in` test at sync.py:116 as a key or substring test. The model assumes the parsed shape.
- The clock (`datetime.now().isoformat()`, sync.py:113): the timestamp is a parameter.
- The literal content of the jokes descriptor (sync.py:11-75): the entry is an id plus an opaque body.
- All printed status lines (sync.py:90-141).
- Aliasing: the source inserts the same dictionary object into the list. Records are values here.
