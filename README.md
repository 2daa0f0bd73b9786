# msxml3 schema collection, modelled in Dafny

This project models the schema cache of Wine's msxml3 (`dlls/msxml3/schema.c`),
the object behind `IXMLDOMSchemaCollection`. A collection maps a namespace URI
to a reference-counted cache entry. Each entry is either an XSD entry, which
owns a compiled schema and the parsed document the schema points to, or an
XDR entry, which owns only a copy of the document. Entries are shared:
`addCollection` stores the same entry object in a second collection and takes
one more reference to it.

Files:

- `common.dfy`: `Option`, the COM result codes the collection returns, and the
  VARTYPE tags `add` dispatches on.
- `dialect.dfy`: the root element of a parsed document and
  `schema_type_from_xmlDocPtr`. It has the four signature constants and lemmas
  showing that detection is exact and case-sensitive.
- `construction.dfy`: the three construction paths (`cache_entry_from_url`,
  `_from_xsd_doc` and `_from_xdr_doc`) and the teardown that
  `cache_entry_release` runs.
  - Each path is a pure function of what the schema compiler answers. The
    answer is a parameter.
  - Every call into the compiler, the document bridge and the heap is
    recorded as an `Effect`, in order. So "the parser context is always
    freed", "a failed copy is freed" and "the schema is detached before it is
    freed" are statements about that log.
- `keyed_store.dfy`: the table as values.
  - The key to entry map.
  - A duplicate-free sequence of keys standing for the order in which a scan
    of the libxml2 hash table visits them. The order itself is left abstract.
  - `Drop`, with which the model states that inserting or removing one key
    keeps the relative order of the others. For insertion this is an
    assumption of the model (see "Left out").
  - The map merge that `addCollection` performs.
- `cache.dfy`: the two objects whose fields the source updates in place.
  - `CacheEntry`: kind, schema, document and count, plus ghost state: its
    key, the set of collections holding it, a freed flag and its effect log.
  - `SchemaCache`: the table, the scan order and the count.
  - A collection's `Valid()` says:
    - every stored entry is live and stored under its own key;
    - each stored entry's count equals the number of collections whose table
      holds it.

    So an entry is torn down exactly when the last collection holding it lets
    go, and no collection can reach a freed entry.

The scans of the source become loops:

- `xmlHashScan` with `cache_index` in `get_namespaceURI`;
- `xmlHashFree` with `cache_free` in `Release`;
- `xmlHashScan` with `cache_copy` in `addCollection`.

Each loop is proved against a specification function: `order[index]`,
`Released` per entry, and `Merged`.

Interfaces and outcomes that are not part of the model:

- I/O and the external libraries are parameters:
  - `UrlOutcome`/`DocOutcome`: what the compiler does;
  - `copyHandle`: the handle `xmlCopyDoc` gives its copy;
  - `DomObject`: what QueryInterface on an IDispatch source yields.
- Out-pointers are a `hasOut` flag plus an `Option` result.
- The DOM wrapper that `get` creates is represented by the document it wraps.

## Model

| member | source | states |
|---|---|---|
| Dialect.SchemaTypeOf | dlls/msxml3/schema.c:129-149 | XDR exactly when the root carries a namespace and matches ("Schema", `urn:schemas-microsoft-com:xml-data`); XSD exactly when it matches ("schema", `http://www.w3.org/2001/XMLSchema`); INVALID exactly when neither signature matches (constants at lines 56-59) |
| Dialect.SignaturesDisjoint | dlls/msxml3/schema.c:56-59 | no root matches both signatures, so the order of the two tests does not matter |
| Dialect.CopyKeepsDialect | dlls/msxml3/schema.c:129-149 | detection depends on the root only: a deep copy has the dialect of its original |
| Dialect.DetectionIsExact | dlls/msxml3/schema.c:134-146 | for every root with a namespace: XSD exactly when both name and namespace equal the XSD pair, XDR exactly when both equal the XDR pair, byte for byte; "SCHEMA" is INVALID in any namespace |
| Dialect.NoNamespaceIsInvalid | dlls/msxml3/schema.c:132-148 | a document without a root, or a root without a namespace, is INVALID whatever its name |
| Construction.FromUrl | dlls/msxml3/schema.c:151-179 | succeeds exactly when the compiler parsed the URL; the result is then an XSD entry with `ref == 0` on the parsed document, which the bridge adopts (DOMDocument40) with one reference; no parser context yields `NULL` with no effect; contexts are always freed |
| Construction.UrlRejected | dlls/msxml3/schema.c:165-170 | a failed parse returns `NULL`, frees the context it made and hands nothing to the bridge |
| Construction.UrlCompiled | dlls/msxml3/schema.c:159-164 | a parsed URL gives a well-formed XSD entry with `ref == 0` owning one bridge reference to the schema's document, adopted with the DOMDocument40 tag and never the DOMDocument30 one |
| Construction.FromXsdDoc | dlls/msxml3/schema.c:181-206 | compiles a private copy (same tree, new handle); succeeds exactly when the parse succeeds, the copy then adopted as DOMDocument40; on failure the copy is freed and the result is `NULL`; the parser context is freed on both paths |
| Construction.XsdCopyRejected | dlls/msxml3/schema.c:197-204 | the failing half: result `NULL`, the copy freed, nothing handed to the bridge |
| Construction.XsdCopyCompiled | dlls/msxml3/schema.c:191-196 | the succeeding half: an XSD entry whose document is the copy, adopted by the bridge as DOMDocument40 (never DOMDocument30) with one reference |
| Construction.FromXdrDoc | dlls/msxml3/schema.c:208-222 | always succeeds with an XDR entry, `schema == NULL`, `ref == 0`, owning a copy of the document adopted as DOMDocument30 |
| Construction.FromDocument | dlls/msxml3/schema.c:406-420 | the document branch of `add`: the entry's kind is the detected dialect; it succeeds exactly for XDR, or for XSD when the parse succeeds; an INVALID document yields `NULL` and no effect |
| Construction.SchemaFreeEffects | dlls/msxml3/schema.c:111-112 | `xmlSchemaFree` frees a document exactly when the schema still points to it, and frees the schema last |
| Construction.Teardown | dlls/msxml3/schema.c:106-120 | the teardown sequence: it starts by releasing the document to the bridge and ends by freeing the entry; for XSD it detaches and frees the schema in between |
| Construction.TeardownOrder | dlls/msxml3/schema.c:106-120 | teardown releases the document to the bridge first and exactly once, never frees a document outright, and frees the entry last; for XSD, detaching the schema's document and freeing the schema come second and third; XDR does only the release and the entry free |
| Construction.DetachIsNecessary | dlls/msxml3/schema.c:110-112 | without the detach, freeing a live XSD entry's schema would free the document the bridge tracks |
| Construction.LifecycleBalanced | dlls/msxml3/schema.c:151-222 | a successful construction followed by its teardown takes and gives back the bridge reference exactly once, never frees the document outright, and frees every parser context |
| KeyedStore.ScanLength | dlls/msxml3/schema.c:489 | a scan visits as many keys as the table holds, so `get_length` and the range test of `get_namespaceURI` agree with the scan |
| KeyedStore.ScanElems | dlls/msxml3/schema.c:514 | a scan visits exactly the table's keys |
| KeyedStore.Drop | dlls/msxml3/schema.c:477 | removing keys from the scan order never lengthens it |
| KeyedStore.DropScan | dlls/msxml3/schema.c:477 | removing keys leaves a scan of the remaining keys |
| KeyedStore.InsertAtScan | dlls/msxml3/schema.c:385 | adding a new key anywhere gives a scan of the larger key set in which the other keys keep their order |
| KeyedStore.DropInsert | dlls/msxml3/schema.c:385 | inserting a key that is dropped afterwards leaves the rest as it was |
| KeyedStore.Merged | dlls/msxml3/schema.c:523-527 | the merge has every key of either table; a key of `self` keeps its value and a key only `other` has gets `other`'s |
| KeyedStore.MergeIdempotent | dlls/msxml3/schema.c:530-543 | adding the same collection a second time adds nothing |
| KeyedStore.MergeSelf | dlls/msxml3/schema.c:523 | adding a collection to itself changes nothing |
| KeyedStore.MergedSize | dlls/msxml3/schema.c:523-527 | a merge grows the table by exactly the keys it lacked |
| KeyedStore.RemovedSize | dlls/msxml3/schema.c:477 | `remove` shrinks the table by one exactly when the key was there |
| KeyedStore.RemoveIdempotent | dlls/msxml3/schema.c:471-480 | a second `remove` of the same key leaves the table and the scan order as the first left them |
| KeyedStore.ReplacedSize | dlls/msxml3/schema.c:384-385 | a replacing `add` does not change the length; a new key adds one |
| Cache.Joined | dlls/msxml3/schema.c:525-526 | what `cache_copy` does to an entry it stores: one reference more, the collection among its holders, nothing else changed |
| Cache.Released | dlls/msxml3/schema.c:101-122 | what letting go does to an entry: one reference and the letting-go holder less, kind and document kept; freed exactly when it was freed or the count was 1, and then the teardown log appended; otherwise nothing else changed |
| Cache.ReleasedAccounting | dlls/msxml3/schema.c:101-122 | when a holder lets go of a stored entry, the count still equals the number of holders; teardown happens exactly when the last holder lets go, appending the teardown log; otherwise schema and log are unchanged |
| Cache.JoinedThenReleased | dlls/msxml3/schema.c:525 | a collection that takes an entry and lets go of it while another holder keeps it alive leaves the entry as it was |
| Cache.Construct | dlls/msxml3/schema.c:368-420 | the construction `add` runs for a URL or a document source: clean; for a URL it succeeds exactly when the compile succeeds, for a document exactly for XDR or a compiled XSD |
| Cache.AddResult | dlls/msxml3/schema.c:354-447 | `add`'s HRESULT: never `E_POINTER`; `E_INVALIDARG` exactly for a non-null source that cannot be constructed from; `E_FAIL` exactly when the construction returns `NULL` |
| Cache.AddResultCases | dlls/msxml3/schema.c:354-447 | `add` returns `E_INVALIDARG` exactly for an unsupported variant type or a node without a document; for a URL `S_OK` exactly when the compile succeeds, otherwise `E_FAIL`; for a document `S_OK` exactly for XDR or a compiled XSD; a null source always succeeds |
| Cache.CacheEntry.constructor | dlls/msxml3/schema.c:153-156 | a new entry has the constructed fields, no holder, the construction's log, and the count the construction gave it (0) |
| Cache.CacheEntry.AddRef | dlls/msxml3/schema.c:94-99 | the count goes up by exactly one and the new count is returned; nothing else changes |
| Cache.CacheEntry.Release | dlls/msxml3/schema.c:101-122 | the count goes down by one and is returned; the entry is freed exactly when the count is 0, appending the teardown log and detaching an XSD schema from its document; otherwise it stays live and unchanged |
| Cache.CacheEntry.CacheFree | dlls/msxml3/schema.c:255-258 | a collection lets go of the entry and releases it once (`Released`), and no other entry changes |
| Cache.SchemaCache.constructor | dlls/msxml3/schema.c:570-582 | a new collection has `ref == 1`, an empty table and an empty scan |
| Cache.SchemaCache.AddRef | dlls/msxml3/schema.c:247-253 | the count goes up by exactly one and is returned; the table is unchanged |
| Cache.SchemaCache.Release | dlls/msxml3/schema.c:260-273 | the count goes down by one and is returned; while not 0, the table and every entry are unchanged; at 0 every stored entry is let go of exactly once and the collection is freed |
| Cache.SchemaCache.FreeTable | dlls/msxml3/schema.c:266-270 | `xmlHashFree` with `cache_free` lets go of every stored entry once, then the table is empty and the collection freed |
| Cache.SchemaCache.FreeEntries | dlls/msxml3/schema.c:268 | the scan that `xmlHashFree` runs lets go of each entry of the table once |
| Cache.SchemaCache.FreeStep | dlls/msxml3/schema.c:255-258 | one `cache_free` call during that scan: the visited entry is let go of, the others are untouched |
| Cache.SchemaCache.RemoveEntry | dlls/msxml3/schema.c:364 | `xmlHashRemoveEntry` with `cache_free`: the key leaves the table and the scan, others keep their order, and the removed entry is let go of once |
| Cache.SchemaCache.InsertEntry | dlls/msxml3/schema.c:385 | `xmlHashAddEntry` of a new key: the table gains exactly that key and entry, the scan gains the key and keeps the others' order, and the entry gains this collection as a holder |
| Cache.SchemaCache.Add | dlls/msxml3/schema.c:354-447 | result as `AddResult`; a null source removes `uri` and lets go of its entry; a failed construction or an unsupported source changes nothing; on success `uri` maps to a new entry with `ref == 1`, the constructed fields and log, only `uri` changed, and any previous entry at `uri` let go of once |
| Cache.SchemaCache.Store | dlls/msxml3/schema.c:424-435 | the new entry takes its reference, replaces whatever `uri` held (which is let go of) and is the only change to the table |
| Cache.SchemaCache.Replace | dlls/msxml3/schema.c:434-435 | remove-then-add of `uri`: the table is the old one with `uri` mapped to the new entry, the other keys keep their scan order, and the new entry is counted once for this collection |
| Cache.SchemaCache.Remove | dlls/msxml3/schema.c:471-480 | always `S_OK`; the table loses `uri` only, the others keep their scan order, and an entry that was there is let go of once |
| Cache.SchemaCache.Get | dlls/msxml3/schema.c:449-469 | `E_POINTER` without an out slot; otherwise `S_OK`, with the stored entry's document exactly when `uri` is present and `NULL` otherwise |
| Cache.SchemaCache.GetLength | dlls/msxml3/schema.c:482-491 | `E_POINTER` without an out slot; otherwise `S_OK` and the number of keys, which is the length of the scan |
| Cache.SchemaCache.GetNamespaceUri | dlls/msxml3/schema.c:493-516 | `E_POINTER` without an out slot; `E_FAIL` with a `NULL` slot for an index at or past the length; for `0 <= index < length` `S_OK` and the key at that position of the scan, written exactly once; a negative index gives `S_OK` with the slot `NULL` and no write |
| Cache.SchemaCache.CacheCopy | dlls/msxml3/schema.c:518-528 | a key already present changes nothing; a missing key is stored with the same entry object, which takes one more reference and gains this collection as a holder; no other entry changes |
| Cache.SchemaCache.CopyStep | dlls/msxml3/schema.c:518-528 | one `cache_copy` call in the scan of `other`: the merge is extended by the visited key and `other`'s table is unchanged |
| Cache.SchemaCache.AddCollection | dlls/msxml3/schema.c:530-543 | `E_POINTER` for a null collection and nothing changes; otherwise `S_OK`, the table is the merge with existing keys winning, new keys are added without disturbing the old scan order, each entry added gained exactly one reference and this collection as a holder, entries already present are untouched, and `other` is unchanged |

## Left out

- COM plumbing (`QueryInterface`, `GetTypeInfoCount`, `GetTypeInfo`, `GetIDsOfNames`, `Invoke`, the vtable) is not modelled: it only forwards to the type library.
- The `_newEnum` stub (always `E_NOTIMPL`) and the build without libxml2 (where `SchemaCache_create` returns `E_NOTIMPL`) are not modelled.
- libxml2 internals are abstract:
  - the compiler's outcomes are parameters;
  - `xmlCopyDoc` is "same tree, new handle";
  - documents and schemas are opaque, except that a schema records the document it points to (see SchemaFreeEffects below);
  - the hash table's bucket count (31), hashing and chaining appear only as a duplicate-free scan order; a new key is inserted at an arbitrary position, and the other keys keep their relative order.
- Atomicity of `InterlockedIncrement`/`InterlockedDecrement` and concurrent use are not modelled; every operation runs sequentially.
- The document bridge and the DOM wrappers (`xmldoc_init`, `xmldoc_add_ref`, `xmldoc_release`, `DOMDocument_create_from_xmldoc`, `xmlNodePtr_from_domnode`) appear only as logged effects or as the document passed back. The HRESULT of `DOMDocument_create_from_xmldoc` is taken to be `S_OK`.
- String conversion (`xmlChar_from_wchar`, `bstr_from_xmlChar`) is not modelled; keys are strings compared exactly.
- Heap allocation is not modelled. Allocation failure is out of scope: unchecked at lines 153, 183 and 210, and `E_OUTOFMEMORY` in `SchemaCache_create`. `heap_free` of an entry is the `FreeEntry` effect plus the ghost `freed` flag.
- Counts are unbounded integers. The 32-bit `LONG` wrap-around of the entry and collection counts, and of the `get_namespaceURI` countdown, is not modelled.
- Cache.Admissible: `Add` requires two things of its source:
  - an IDispatch source must be a DOM node. For any other, the failure path releases a null node pointer and the source crashes.
  - the copy `xmlCopyDoc` allocates must have a handle different from its original's, which a fresh allocation guarantees.
- Cache.SchemaCache.InsertEntry: rehashing when the libxml2 table grows is not modelled. An insertion is assumed to keep the other keys' relative order in a scan. The same assumption is carried by Cache.SchemaCache.Replace, Store, Add, CacheCopy, CopyStep, AddCollection and KeyedStore.InsertAtScan, whose order clauses say more than `xmlHashAddEntry` promises.
- Cache.SchemaCache.AddCollection: its clause that the old keys keep their scan order rests on the insertion assumption above.
- Construction.SchemaFreeEffects: `xmlSchemaFree` is libxml2 code. It is assumed to free `schema->doc` exactly when that pointer is set, which is the assumption behind the detach at schema.c line 111.
- Dialect.SchemaTypeOf: a null document is not representable. The source reads an uninitialised root for one, and its only caller checks for null first.
- Cache.SchemaCache.AddCollection: requires that no entry of `other` lists this collection as a holder unless this collection stores that entry under that key. This holds in every reachable state, but the model keeps no global registry of collections from which to prove it.
- Calls on a collection whose count has reached 0 (a freed object) are not modelled: every method requires `Valid()`.
