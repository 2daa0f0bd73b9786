/** The schema collection of msxml3 (schema.c): a table from namespace URI
    to reference-counted cache entries, with its own COM reference count.

    Entries are shared: `addCollection` stores the same entry object in a
    second collection, always under the URI it was added under. Each entry
    carries, as ghost state, the set of collections whose table stores it;
    a collection's invariant says that every entry it stores is live and
    counted exactly once per holder. So an entry is torn down exactly when
    the last collection storing it lets go, and no collection can reach an
    entry that was torn down. */
module Cache {
  import opened Common
  import opened Dialect
  import opened Construction
  import opened KeyedStore

  /** What an IDispatch source of `add` turns out to be: not an
      IXMLDOMNode, or a node and the document it belongs to (`NULL` when it
      has none). */
  datatype DomObject = NotANode | DomNode(doc: Option<Doc>)

  /** The VARIANT handed to `add`: its type tag and the payloads of the two
      shapes that carry one. */
  datatype Variant = Variant(vt: nat, url: string, obj: DomObject)

  /** The fields of a `cache_entry` at one moment, ghost ones included. */
  datatype EntryView = EntryView(kind: SchemaType, schema: Option<Schema>, doc: Doc, ref: int,
                                 holders: set<SchemaCache>, freed: bool, log: seq<Effect>)

  /** `v` once collection `c` stores the entry too and has taken its
      reference. */
  function Joined(v: EntryView, c: SchemaCache): (r: EntryView)
    ensures r.ref == v.ref + 1 && c in r.holders && r.holders - {c} == v.holders - {c}
    ensures r.(ref := v.ref, holders := v.holders) == v
  {
    v.(ref := v.ref + 1, holders := v.holders + {c})
  }

  /** `v` once collection `c` lets go of the entry and releases it once: one
      reference and one holder less, and when the count reaches 0 the
      teardown, which detaches an XSD schema from its document. */
  function Released(v: EntryView, c: SchemaCache): (r: EntryView)
    requires Consistent(v.kind, v.schema, v.doc)
    ensures r.ref == v.ref - 1 && c !in r.holders && r.holders + {c} == v.holders + {c}
    ensures r.kind == v.kind && r.doc == v.doc
    ensures r.freed <==> v.freed || v.ref == 1
    ensures v.ref != 1 ==> r.(ref := v.ref, holders := v.holders) == v
    ensures v.ref == 1 ==> r.log == v.log + Teardown(v.kind, v.schema, v.doc)
  {
    if v.ref - 1 == 0 then
      v.(ref := 0, holders := v.holders - {c}, freed := true,
         schema := if v.kind == Xsd then Some(v.schema.value.(doc := None)) else v.schema,
         log := v.log + Teardown(v.kind, v.schema, v.doc))
    else
      v.(ref := v.ref - 1, holders := v.holders - {c})
  }

  /** Letting go keeps the count equal to the number of holders: the
      entry is torn down exactly when its last holder lets go, and
      otherwise it stays live with its schema, document and history. */
  lemma ReleasedAccounting(v: EntryView, c: SchemaCache)
    requires !v.freed && Consistent(v.kind, v.schema, v.doc)
    requires v.ref == |v.holders| && c in v.holders
    ensures Released(v, c).holders == v.holders - {c}
    ensures Released(v, c).ref == |Released(v, c).holders|
    ensures Released(v, c).freed <==> v.holders == {c}
    ensures Released(v, c).freed ==> Released(v, c).log == v.log + Teardown(v.kind, v.schema, v.doc)
    ensures !Released(v, c).freed ==>
              Released(v, c).log == v.log && Released(v, c).schema == v.schema
    ensures Released(v, c).kind == v.kind && Released(v, c).doc == v.doc
  {
  }

  /** A collection that stores an entry and then lets go of it, while
      another holder keeps it alive, leaves the entry as it was. */
  lemma JoinedThenReleased(v: EntryView, c: SchemaCache)
    requires Consistent(v.kind, v.schema, v.doc) && v.ref >= 1 && c !in v.holders
    ensures Released(Joined(v, c), c) == v
  {
  }

  /** A `cache_entry`. */
  class CacheEntry {
    var kind: SchemaType
    var schema: Option<Schema>
    var doc: Doc
    var ref: int
    /** The namespace URI the entry was added under. `add` stores a new
        entry under its URI and `addCollection` copies it under the same
        URI, so every table holding the entry holds it under this key. */
    ghost const key: Key
    /** The collections whose table stores this entry. */
    ghost var holders: set<SchemaCache>
    /** Set when the entry is torn down and its memory freed. */
    ghost var freed: bool
    /** Everything done to the entry's document, schema and memory, from
        its construction on. */
    ghost var log: seq<Effect>

    /** Not yet freed, and its fields are those of a constructed entry. */
    ghost predicate Live()
      reads this
    {
      !freed && Consistent(kind, schema, doc)
    }

    /** Live, and counted exactly once for each table that stores it. */
    ghost predicate Stored()
      reads this
    {
      Live() && ref == |holders|
    }

    /** Since the pre-state, collection `c` has let go of this entry and
        released it once: the count follows the holders, the teardown ran
        exactly when the count reached 0, and otherwise nothing else
        changed. */
    twostate predicate LetGo(c: SchemaCache)
      reads this
    {
      old(Stored()) && c in old(holders) && View() == Released(old(View()), c)
    }

    /** The entry's fields, as one value. */
    ghost function View(): EntryView
      reads this
    {
      EntryView(kind, schema, doc, ref, holders, freed, log)
    }

    /** Since the pre-state, collection `c` has come to store this entry,
        taking one reference; nothing else changed. */
    twostate predicate Gained(c: SchemaCache)
      reads this
    {
      old(Stored()) && c !in old(holders) && View() == Joined(old(View()), c)
    }

    /** No field of the entry changed since the pre-state. */
    twostate predicate Untouched()
      reads this
    {
      View() == old(View())
    }

    /** The entry a construction path returned for namespace `key`, with
        `log` the effects of that construction. */
    constructor (e: EntryState, ghost fx: seq<Effect>, ghost key: Key)
      requires WellFormed(e)
      ensures kind == e.kind && schema == e.schema && doc == e.doc && ref == e.ref
      ensures this.key == key && Live() && holders == {} && log == fx
    {
      kind, schema, doc, ref := e.kind, e.schema, e.doc, e.ref;
      this.key := key;
      holders, freed, log := {}, false, fx;
    }

    /** cache_entry_add_ref: one more reference; returns the new count. */
    method AddRef() returns (r: int)
      requires Live()
      modifies this
      ensures ref == old(ref) + 1 && r == ref
      ensures kind == old(kind) && schema == old(schema) && doc == old(doc)
      ensures holders == old(holders) && freed == old(freed) && log == old(log)
    {
      ref := ref + 1;
      r := ref;
    }

    /** cache_entry_release: one reference less; when the count reaches 0,
        the teardown runs: for XSD the document goes back to the bridge,
        the schema's pointer to it is cleared, the schema is freed and then
        the entry; for XDR the document goes back and the entry is freed.
        Returns the new count. */
    method Release() returns (r: int)
      requires Live()
      modifies this
      ensures ref == old(ref) - 1 && r == ref
      ensures freed <==> r == 0
      ensures kind == old(kind) && doc == old(doc) && holders == old(holders)
      ensures r == 0 ==> log == old(log) + Teardown(kind, old(schema), doc)
      ensures r == 0 ==> schema == if kind == Xsd then Some(old(schema).value.(doc := None)) else old(schema)
      ensures r != 0 ==> Live() && schema == old(schema) && log == old(log)
    {
      ref := ref - 1;
      r := ref;
      if r == 0 {
        if kind == Xsd {
          log := log + [DocRelease(doc)];
          var s := schema.value;
          schema := Some(s.(doc := None));
          log := log + [DetachSchemaDoc(s.id)];
          log := log + SchemaFreeEffects(schema.value);
        } else {
          log := log + [DocRelease(doc)];
        }
        freed := true;
        log := log + [FreeEntry];
      }
    }

    /** cache_free: the table of collection `c` lets go of the entry and
        releases it once. */
    method CacheFree(ghost c: SchemaCache)
      requires Stored() && c in holders
      modifies this
      ensures LetGo(c)
      ensures forall x: CacheEntry :: x != this && old(allocated(x)) ==> x.View() == old(x.View())
    {
      var _ := Release();
      holders := holders - {c};
    }
  }

  /** What `add` demands of its source: an IDispatch must be a DOM node
      (otherwise the source releases a null interface pointer), and the
      copy `xmlCopyDoc` allocates is a new document. */
  predicate Admissible(v: Variant, env: Collaborators) {
    && (v.vt == VT_DISPATCH ==> v.obj.DomNode?)
    && (v.vt == VT_DISPATCH && v.obj.DomNode? && v.obj.doc.Some? ==>
          env.copyHandle != v.obj.doc.value.handle)
  }

  /** The source shapes for which `add` constructs an entry: a URL string,
      or a node that belongs to a document. */
  predicate Constructs(v: Variant) {
    v.vt == VT_BSTR || (v.vt == VT_DISPATCH && v.obj.DomNode? && v.obj.doc.Some?)
  }

  /** The construction `add` runs for source `v`. */
  function Construct(v: Variant, env: Collaborators): (b: Built)
    requires Admissible(v, env) && Constructs(v)
    ensures Clean(b)
    ensures v.vt == VT_BSTR ==> (b.entry.Some? <==> env.fromUrl.UrlParsed?)
    ensures v.vt != VT_BSTR ==> (b.entry.Some? <==> match SchemaTypeOf(v.obj.doc.value)
                                                      case Xdr => true
                                                      case Xsd => env.fromDoc.DocParsed?
                                                      case Invalid => false)
  {
    if v.vt == VT_BSTR then FromUrl(env.fromUrl)
    else FromDocument(v.obj.doc.value, env)
  }

  /** The HRESULT `add` returns for source `v`. */
  function AddResult(v: Variant, env: Collaborators): (r: HResult)
    requires Admissible(v, env)
    ensures r != E_POINTER
    ensures r == E_INVALIDARG <==> v.vt != VT_NULL && !Constructs(v)
    ensures r == E_FAIL <==> Constructs(v) && Construct(v, env).entry.None?
  {
    if v.vt == VT_NULL then S_OK
    else if !Constructs(v) then E_INVALIDARG
    else if Construct(v, env).entry.Some? then S_OK
    else E_FAIL
  }

  /** The meaning of `add`'s result: `S_OK` for a null source or a
      construction that succeeds, `E_INVALIDARG` for an unsupported variant
      type or a node without a document, `E_FAIL` for a failed compile or
      a document that is no schema. */
  lemma AddResultCases(v: Variant, env: Collaborators)
    requires Admissible(v, env)
    ensures AddResult(v, env) == E_INVALIDARG <==>
              (v.vt != VT_NULL && v.vt != VT_BSTR && v.vt != VT_DISPATCH) ||
              (v.vt == VT_DISPATCH && v.obj.doc.None?)
    ensures v.vt == VT_BSTR ==>
              (AddResult(v, env) == S_OK <==> env.fromUrl.UrlParsed?) &&
              (AddResult(v, env) == E_FAIL <==> !env.fromUrl.UrlParsed?)
    ensures v.vt == VT_DISPATCH && v.obj.doc.Some? ==>
              var t := SchemaTypeOf(v.obj.doc.value);
              AddResult(v, env) == S_OK <==> t == Xdr || (t == Xsd && env.fromDoc.DocParsed?)
    ensures AddResult(v, env) != S_OK ==> v.vt != VT_NULL
  {
  }

  /** The fields of every entry of `m`, by key. */
  ghost function Views(m: map<Key, CacheEntry>): (r: map<Key, EntryView>)
    reads m.Values
    ensures r.Keys == m.Keys
  {
    map k | k in m :: m[k].View()
  }

  /** A schema collection (`schema_cache`). */
  class SchemaCache {
    /** The hash table, as a map from namespace URI to entry. */
    var table: map<Key, CacheEntry>
    /** The order in which a scan of the hash table visits its keys. */
    var order: seq<Key>
    var ref: int
    /** Set when the collection is freed. */
    ghost var freed: bool

    ghost predicate Valid()
      reads this, table.Values
    {
      && !freed
      && ref >= 1
      && IsScanOf(order, table.Keys)
      && (forall k :: k in table ==> table[k].key == k && table[k].Stored() && this in table[k].holders)
    }

    /** No entry of `m` names this collection as a holder unless this
        collection's table stores it under its key. */
    ghost predicate HoldersAccurate(m: map<Key, CacheEntry>)
      reads this, m.Values
    {
      forall k :: k in m && this in m[k].holders ==> k in table && table[k] == m[k]
    }

    /** The entry stored under `uri`, as a set: what letting go of `uri`
        may change. */
    function Holding(uri: Key): set<CacheEntry>
      reads this
    {
      if uri in table then {table[uri]} else {}
    }

    /** SchemaCache_create: an empty collection holding one reference. */
    constructor ()
      ensures Valid()
      ensures ref == 1 && table == map[] && order == []
    {
      table, order, ref := map[], [], 1;
      freed := false;
    }

    /** schema_cache_AddRef. */
    method AddRef() returns (r: int)
      requires Valid()
      modifies this
      ensures Valid()
      ensures ref == old(ref) + 1 && r == ref
      ensures table == old(table) && order == old(order)
    {
      ref := ref + 1;
      r := ref;
    }

    /** schema_cache_Release: one reference less; at 0 the table is freed
        with `cache_free`, which lets go of every entry once, in scan
        order, and the collection itself is freed. */
    method Release() returns (r: int)
      requires Valid()
      modifies this, table.Values
      ensures ref == old(ref) - 1 && r == ref
      ensures r != 0 ==> Valid() && table == old(table) && order == old(order)
      ensures r != 0 ==> forall k :: k in old(table) ==> unchanged(old(table)[k])
      ensures r == 0 ==> freed && table == map[] && order == []
      ensures r == 0 ==> forall k :: k in old(table) ==> old(table)[k].LetGo(this)
    {
      ref := ref - 1;
      r := ref;
      if r == 0 {
        FreeTable();
      }
    }

    /** cache_free over the whole table, then the collection itself: every
        entry is let go of once, in scan order. */
    method FreeTable()
      requires !freed && IsScanOf(order, table.Keys)
      requires forall k :: k in table ==> table[k].key == k && table[k].Stored() && this in table[k].holders
      modifies this, table.Values
      ensures ref == old(ref) && freed && table == map[] && order == []
      ensures forall k :: k in old(table) ==> old(table)[k].LetGo(this)
    {
      FreeEntries(order, table);
      table, order, freed := map[], [], true;
    }

    /** The scan of `cache_free` over the table `t`, in the order `keys`:
        every entry is let go of once. */
    method FreeEntries(keys: seq<Key>, t: map<Key, CacheEntry>)
      requires IsScanOf(keys, t.Keys)
      requires forall k :: k in t ==> t[k].key == k && t[k].Stored() && this in t[k].holders
      modifies t.Values
      ensures forall k :: k in t ==> t[k].LetGo(this)
    {
      ghost var s0 := ReleasingStarts(keys, t);
      var i := 0;
      while i < |keys|
        invariant Releasing(keys, i, t, s0)
      {
        FreeStep(keys, i, t, s0);
        i := i + 1;
        assert Releasing(keys, i, t, s0);
      }
      ReleasingEnds(keys, t, s0);
    }

    /** The state of `cache_free` over the table `t` once its scan, in the
        order `keys`, has visited the first `i` keys: the entries `t` had
        are `s0`, and each visited entry has been let go of once. */
    ghost predicate Releasing(keys: seq<Key>, i: nat, t: map<Key, CacheEntry>, s0: map<Key, EntryView>)
      reads t.Values
    {
      && i <= |keys|
      && IsScanOf(keys, t.Keys) && Elems(keys) == t.Keys
      && s0.Keys == t.Keys
      && (forall k :: k in t ==>
            && t[k].key == k && this in s0[k].holders
            && !s0[k].freed && Consistent(s0[k].kind, s0[k].schema, s0[k].doc)
            && s0[k].ref == |s0[k].holders|)
      && EntriesReleasing(t, Elems(keys[..i]), s0)
    }

    /** The entries of `t` after the keys `done` were let go of: see
        `Releasing`. */
    ghost predicate EntriesReleasing(t: map<Key, CacheEntry>, done: set<Key>, s0: map<Key, EntryView>)
      reads t.Values
      requires s0.Keys == t.Keys
      requires forall k :: k in t ==> Consistent(s0[k].kind, s0[k].schema, s0[k].doc)
    {
      forall k :: k in t ==> t[k].View() == if k in done then Released(s0[k], this) else s0[k]
    }

    /** Before its scan, `cache_free` over the table is in the state
        `Releasing` describes for no key visited, `s0` being the entries. */
    lemma ReleasingStarts(keys: seq<Key>, t: map<Key, CacheEntry>) returns (s0: map<Key, EntryView>)
      requires IsScanOf(keys, t.Keys)
      requires forall k :: k in t ==> t[k].key == k && t[k].Stored() && this in t[k].holders
      ensures Releasing(keys, 0, t, s0)
      ensures forall k :: k in t ==> s0[k] == t[k].View()
    {
      s0 := Views(t);
      ScanElems(keys, t.Keys);
      assert Elems(keys[..0]) == {};
      assert EntriesReleasing(t, {}, s0);
    }

    /** After its scan, every entry of the table has been let go of once. */
    lemma ReleasingEnds(keys: seq<Key>, t: map<Key, CacheEntry>, s0: map<Key, EntryView>)
      requires Releasing(keys, |keys|, t, s0)
      ensures forall k :: k in t ==>
                Consistent(s0[k].kind, s0[k].schema, s0[k].doc) && t[k].View() == Released(s0[k], this)
    {
    }

    /** One step of `cache_free` over the table `t`: let go of the entry
        under the `i`-th key of `keys`. */
    method FreeStep(keys: seq<Key>, i: nat, t: map<Key, CacheEntry>, ghost s0: map<Key, EntryView>)
      requires Releasing(keys, i, t, s0) && i < |keys|
      modifies t[keys[i]]
      ensures Releasing(keys, i + 1, t, s0)
    {
      var k := keys[i];
      ghost var done := Elems(keys[..i]);
      ElemsFresh(keys, t.Keys, i);
      ElemsStep(keys, i);
      assert k in Elems(keys);
      assert t[k].View() == s0[k];
      t[k].CacheFree(this);
      ghost var done' := Elems(keys[..i + 1]);
      assert done' == done + {k};
      forall j | j in t
        ensures t[j].View() == if j in done' then Released(s0[j], this) else s0[j]
      {
        if j != k {
          assert t[j].key != t[k].key;
        }
      }
      assert EntriesReleasing(t, done', s0);
    }

    /** xmlHashRemoveEntry with `cache_free`: drop `uri`, if present, and
        release its entry once. */
    method RemoveEntry(uri: Key)
      requires Valid()
      modifies this, Holding(uri)
      ensures Valid() && ref == old(ref)
      ensures table == old(table) - {uri}
      ensures order == Drop(old(order), {uri})
      ensures uri in old(table) ==> old(table[uri]).LetGo(this)
    {
      if uri in table {
        DropScan(order, table.Keys, {uri});
        table[uri].CacheFree(this);
        table, order := table - {uri}, Drop(order, {uri});
      } else {
        ScanElems(order, table.Keys);
        DropNone(order, {uri});
      }
    }

    /** xmlHashAddEntry: store `e`, which already holds the reference this
        table accounts for, under its key `uri`, which is new, at some
        position of the scan. */
    method InsertEntry(uri: Key, e: CacheEntry)
      requires Valid() && uri !in table
      requires e.key == uri && e.Live() && this !in e.holders && e.ref == |e.holders| + 1
      modifies this, e
      ensures Valid() && ref == old(ref)
      ensures table == old(table)[uri := e]
      ensures uri in order && Drop(order, {uri}) == old(order)
      ensures e.holders == old(e.holders) + {this}
      ensures e.Stored() && e.ref == old(e.ref) && e.log == old(e.log)
      ensures e.kind == old(e.kind) && e.schema == old(e.schema) && e.doc == old(e.doc)
    {
      var pos :| 0 <= pos <= |order|;
      InsertAtScan(order, table.Keys, pos, uri);
      StoreKeys(table, uri, e);
      ghost var t := table;
      assert forall k :: k in t ==> t[k] != e;
      e.holders := e.holders + {this};
      table, order := table[uri := e], InsertAt(order, pos, uri);
      forall k | k in table
        ensures table[k].key == k && table[k].Stored() && this in table[k].holders
      {
        if k != uri {
          assert table[k] == t[k];
        }
      }
    }

    /** schema_cache_add. A null source removes `uri`. A URL or a document
        source is compiled into a new entry, which takes one reference,
        replaces (and releases) any entry stored under `uri`, and is stored;
        when the construction fails nothing changes. Any other source is
        refused and nothing changes. */
    method Add(uri: Key, v: Variant, env: Collaborators) returns (hr: HResult)
      requires Valid() && Admissible(v, env)
      modifies this, Holding(uri)
      ensures Valid() && ref == old(ref)
      ensures hr == AddResult(v, env)
      ensures hr != S_OK ==> table == old(table) && order == old(order)
      ensures hr != S_OK && uri in old(table) ==> unchanged(old(table[uri]))
      ensures v.vt == VT_NULL ==> table == old(table) - {uri} && order == Drop(old(order), {uri})
      ensures hr == S_OK && v.vt != VT_NULL ==>
                var st := Construct(v, env).entry.value;
                && uri in table && fresh(table[uri])
                && table[uri].kind == st.kind && table[uri].schema == st.schema && table[uri].doc == st.doc
                && table[uri].ref == 1 && table[uri].holders == {this}
                && table[uri].log == Construct(v, env).effects
                && table == old(table)[uri := table[uri]]
                && uri in order && Drop(order, {uri}) == Drop(old(order), {uri})
      ensures hr == S_OK && uri in old(table) ==> old(table[uri]).LetGo(this)
    {
      if v.vt == VT_NULL {
        RemoveEntry(uri);
        return S_OK;
      }
      if !Constructs(v) {
        return E_INVALIDARG;
      }
      var built := Construct(v, env);
      if built.entry.None? {
        return E_FAIL;
      }
      Store(uri, built.entry.value, built.effects);
      hr := S_OK;
    }

    /** The storing half of `add`: a new entry is made from what the
        construction returned and takes one reference, any entry under
        `uri` is removed and released, and the new one is stored. */
    method Store(uri: Key, st: EntryState, ghost fx: seq<Effect>)
      requires Valid() && WellFormed(st) && st.ref == 0
      modifies this, Holding(uri)
      ensures Valid() && ref == old(ref)
      ensures uri in table && fresh(table[uri])
      ensures table[uri].kind == st.kind && table[uri].schema == st.schema && table[uri].doc == st.doc
      ensures table[uri].ref == 1 && table[uri].holders == {this} && table[uri].log == fx
      ensures table == old(table)[uri := table[uri]]
      ensures uri in order && Drop(order, {uri}) == Drop(old(order), {uri})
      ensures uri in old(table) ==> old(table[uri]).LetGo(this)
    {
      var e := new CacheEntry(st, fx, uri);
      var _ := e.AddRef();
      Replace(uri, e);
    }

    /** xmlHashRemoveEntry with `cache_free`, then xmlHashAddEntry: the new
        entry `e`, holding the one reference it took, replaces any entry
        stored under its key `uri`, which is let go of. */
    method Replace(uri: Key, e: CacheEntry)
      requires Valid() && e.key == uri && e.Live() && e.holders == {} && e.ref == 1
      modifies this, Holding(uri), e
      ensures Valid()
      ensures ref == old(ref)
      ensures table == old(table)[uri := e]
      ensures uri in order && Drop(order, {uri}) == Drop(old(order), {uri})
      ensures e.Stored() && e.View() == old(e.View()).(holders := {this})
      ensures uri in old(table) ==> old(table[uri]).LetGo(this)
    {
      assert e !in table.Values;
      RemoveThenStore(table, uri, e);
      ghost var v := e.View();
      RemoveEntry(uri);
      assert e.View() == v;
      InsertEntry(uri, e);
    }

    /** schema_cache_remove: drop `uri` if present, releasing its entry
        once; always succeeds. */
    method Remove(uri: Key) returns (hr: HResult)
      requires Valid()
      modifies this, Holding(uri)
      ensures Valid() && ref == old(ref)
      ensures hr == S_OK
      ensures table == old(table) - {uri}
      ensures order == Drop(old(order), {uri})
      ensures uri in old(table) ==> old(table[uri]).LetGo(this)
    {
      RemoveEntry(uri);
      hr := S_OK;
    }

    /** schema_cache_get: the document of the entry stored under `uri`, or
        `NULL` when there is none; `E_POINTER` without an out slot. The
        table is only read. */
    method Get(uri: Key, hasOut: bool) returns (hr: HResult, node: Option<Doc>)
      requires Valid()
      ensures !hasOut ==> hr == E_POINTER && node == None
      ensures hasOut ==> hr == S_OK
      ensures node.Some? <==> hasOut && uri in table
      ensures node.Some? ==> node.value == table[uri].doc
    {
      if !hasOut {
        return E_POINTER, None;
      }
      if uri in table {
        return S_OK, Some(table[uri].doc);
      }
      return S_OK, None;
    }

    /** schema_cache_get_length: the number of keys, which is also the
        number of positions a scan visits. */
    method GetLength(hasOut: bool) returns (hr: HResult, length: Option<int>)
      requires Valid()
      ensures !hasOut ==> hr == E_POINTER && length == None
      ensures hasOut ==> hr == S_OK && length == Some(|table|) && |table| == |order|
    {
      if !hasOut {
        return E_POINTER, None;
      }
      ScanLength(order, table.Keys);
      return S_OK, Some(|table|);
    }

    /** schema_cache_get_namespaceURI: the out slot is cleared; an index at
        or past the length fails; otherwise a scan runs `cache_index` on
        every key, counting `index` down and writing the key it meets at 0.
        A negative index never meets 0, so the call succeeds with the slot
        left `NULL`. `writes` counts the writes `cache_index` makes. */
    method GetNamespaceUri(index: int, hasOut: bool) returns (hr: HResult, out: Option<Key>, ghost writes: nat)
      requires Valid()
      ensures !hasOut ==> hr == E_POINTER && out == None && writes == 0
      ensures hasOut && index >= |table| ==> hr == E_FAIL && out == None && writes == 0
      ensures hasOut && 0 <= index < |table| ==> hr == S_OK && index < |order| && out == Some(order[index]) && writes == 1
      ensures hasOut && index < 0 ==> hr == S_OK && out == None && writes == 0
      ensures out.Some? ==> out.value in table
    {
      writes := 0;
      if !hasOut {
        return E_POINTER, None, 0;
      }
      out := None;
      ScanLength(order, table.Keys);
      ScanElems(order, table.Keys);
      if index >= |table| {
        return E_FAIL, out, 0;
      }
      var countdown := index;
      var i := 0;
      while i < |order|
        invariant 0 <= i <= |order|
        invariant countdown == index - i
        invariant out == (if 0 <= index < i then Some(order[index]) else None)
        invariant writes == (if 0 <= index < i then 1 else 0)
      {
        if countdown == 0 {
          out := Some(order[i]);
          writes := writes + 1;
        }
        countdown := countdown - 1;
        i := i + 1;
      }
      hr := S_OK;
    }

    /** cache_copy: store `e`, the entry another collection holds under
        `k`, here as well, unless this collection already has the key. */
    method CacheCopy(k: Key, e: CacheEntry)
      requires Valid()
      requires e.key == k && e.Stored()
      requires this in e.holders ==> k in table && table[k] == e
      modifies this, e
      ensures Valid() && ref == old(ref)
      ensures e.Stored()
      ensures forall x: CacheEntry :: x != e && old(allocated(x)) ==> x.View() == old(x.View())
      ensures k in old(table) ==> unchanged(this) && e.View() == old(e.View())
      ensures k !in old(table) ==>
                && table == old(table)[k := e] && k in order && Drop(order, {k}) == old(order)
                && this !in old(e.holders) && e.View() == Joined(old(e.View()), this)
    {
      if k !in table {
        var _ := e.AddRef();
        InsertEntry(k, e);
      }
    }

    /** The state of `addCollection` once its scan of `other`, in the order
        `keys`, has visited the first `i` keys: `t0` and `o0` are the table
        and order of this collection and `s0` the entries of `other` as they
        were before the scan. The keys visited so far are merged in, the
        order only gained the new ones, and each entry of `other` is as it
        was, except that this collection took a reference to each visited
        entry it did not have. */
    ghost predicate Merging(other: SchemaCache, keys: seq<Key>, i: nat, t0: map<Key, CacheEntry>,
                            o0: seq<Key>, s0: map<Key, EntryView>)
      reads this, table.Values, other, other.table.Values
    {
      && i <= |keys|
      && Valid() && other.Valid()
      && IsScanOf(keys, other.table.Keys) && Elems(keys) == other.table.Keys
      && (other == this ==> table == t0 && order == o0)
      && table == Merged(t0, Restrict(other.table, Elems(keys[..i])))
      && Drop(order, table.Keys - t0.Keys) == o0
      && s0.Keys == other.table.Keys
      && EntriesMerging(other.table, Elems(keys[..i]), t0, s0)
    }

    /** The entries of `src` after the keys `done` were visited: see
        `Merging`. */
    ghost predicate EntriesMerging(src: map<Key, CacheEntry>, done: set<Key>, t0: map<Key, CacheEntry>,
                                   s0: map<Key, EntryView>)
      reads src.Values
      requires s0.Keys == src.Keys
    {
      && (forall j :: j in src && this in s0[j].holders ==> j in t0 && t0[j] == src[j])
      && (forall j :: j in src ==>
            src[j].View() == if j in done && j !in t0 then Joined(s0[j], this) else s0[j])
    }

    /** Before its scan, `addCollection` is in the state `Merging`
        describes for no key visited. */
    lemma MergingStarts(other: SchemaCache)
      requires Valid() && other.Valid() && HoldersAccurate(other.table)
      ensures Merging(other, other.order, 0, table, order, Views(other.table))
    {
      var src, s0 := other.table, Views(other.table);
      ScanElems(other.order, src.Keys);
      DropNone(order, {});
      assert table.Keys - table.Keys == {};
      assert other.order[..0] == [];
      assert Elems(other.order[..0]) == {};
      assert Restrict(src, {}) == map[];
      assert Merged(table, map[]) == table;
      assert EntriesMerging(src, {}, table, s0);
    }

    /** After its scan, `addCollection` has merged every key of `other`,
        and this collection took a reference exactly to the entries whose
        key it lacked, none of which it held before. */
    lemma MergingEnds(other: SchemaCache, keys: seq<Key>, t0: map<Key, CacheEntry>,
                      o0: seq<Key>, s0: map<Key, EntryView>)
      requires Merging(other, keys, |keys|, t0, o0, s0)
      ensures table == Merged(t0, other.table)
      ensures Drop(order, other.table.Keys - t0.Keys) == o0
      ensures forall k :: k in other.table && k !in t0 ==>
                this !in s0[k].holders && other.table[k].View() == Joined(s0[k], this)
      ensures forall k :: k in other.table && k in t0 ==> other.table[k].View() == s0[k]
    {
      var src := other.table;
      assert keys[..|keys|] == keys;
      RestrictAll(src, Elems(keys[..|keys|]));
      assert table.Keys - t0.Keys == src.Keys - t0.Keys;
      EntriesMerged(src, Elems(keys[..|keys|]), t0, s0);
    }

    /** Once every key of `src` was visited, see `MergingEnds`. */
    lemma EntriesMerged(src: map<Key, CacheEntry>, done: set<Key>, t0: map<Key, CacheEntry>,
                        s0: map<Key, EntryView>)
      requires s0.Keys == src.Keys && src.Keys <= done
      requires EntriesMerging(src, done, t0, s0)
      ensures forall k :: k in src && k !in t0 ==>
                this !in s0[k].holders && src[k].View() == Joined(s0[k], this)
      ensures forall k :: k in src && k in t0 ==> src[k].View() == s0[k]
    {
    }

    /** One step of `addCollection`'s scan: `cache_copy` on the `i`-th key
        of `keys`. */
    method CopyStep(other: SchemaCache, keys: seq<Key>, i: nat, ghost t0: map<Key, CacheEntry>,
                    ghost o0: seq<Key>, ghost s0: map<Key, EntryView>)
      requires Merging(other, keys, i, t0, o0, s0) && i < |keys|
      modifies this, other.table[keys[i]]
      ensures Merging(other, keys, i + 1, t0, o0, s0)
      ensures ref == old(ref) && other.table == old(other.table) && other.order == old(other.order)
    {
      var src, k := other.table, keys[i];
      ghost var done := Elems(keys[..i]);
      ElemsFresh(keys, src.Keys, i);
      ElemsStep(keys, i);
      assert k in Elems(keys);
      MergeVisit(t0, src, done, k);
      ghost var added := table.Keys - t0.Keys;
      ghost var had := k in table;
      assert had <==> k in t0;
      assert other == this ==> had;
      assert src[k].View() == s0[k];
      CacheCopy(k, src[k]);
      assert src[k].View() == if had then s0[k] else Joined(s0[k], this);
      if other == this {
        assert table == old(table) && order == old(order);
      } else {
        assert other != src[k] as object;
        assert other.table == src && other.order == old(other.order);
      }
      ghost var done' := Elems(keys[..i + 1]);
      assert done' == done + {k};
      forall j | j in src
        ensures src[j].Stored() && other in src[j].holders
        ensures src[j].View() == if j in done' && j !in t0 then Joined(s0[j], this) else s0[j]
      {
        if j != k {
          assert src[j].key != src[k].key;
          assert src[j].View() == old(src[j].View());
        } else {
          assert src[j].View() == if had then s0[k] else Joined(s0[k], this);
        }
      }
      if !had {
        DropUnion(order, added, {k});
      }
      assert table == Merged(t0, Restrict(src, done'));
      assert EntriesMerging(src, done', t0, s0);
    }

    /** schema_cache_addCollection: a scan of `other` runs `cache_copy` on
        each of its keys, so a key this collection lacks is stored here with
        the same entry object, which takes one reference more, and keys
        already here keep their entry. `other` keeps its table. */
    method AddCollection(other: SchemaCache?) returns (hr: HResult)
      requires Valid()
      requires other != null ==> other.Valid() && HoldersAccurate(other.table)
      modifies this, if other == null then {} else other.table.Values
      ensures Valid() && ref == old(ref)
      ensures other == null ==> hr == E_POINTER && table == old(table) && order == old(order)
      ensures other != null ==> hr == S_OK && other.Valid()
      ensures other != null ==> table == Merged(old(table), old(other.table))
      ensures other != null ==> other.table == old(other.table) && other.order == old(other.order)
      ensures other != null ==> Drop(order, other.table.Keys - old(table).Keys) == old(order)
      ensures other != null ==> forall k :: k in other.table && k !in old(table) ==> other.table[k].Gained(this)
      ensures other != null ==> forall k :: k in other.table && k in old(table) ==> other.table[k].Untouched()
    {
      if other == null {
        return E_POINTER;
      }
      var src, keys := other.table, other.order;
      ghost var t0, o0, s0 := table, order, Views(other.table);
      MergingStarts(other);
      var i := 0;
      while i < |keys|
        invariant Merging(other, keys, i, t0, o0, s0)
        invariant other.table == src && other.order == keys && ref == old(ref)
      {
        CopyStep(other, keys, i, t0, o0, s0);
        i := i + 1;
        assert Merging(other, keys, i, t0, o0, s0);
      }
      MergingEnds(other, keys, t0, o0, s0);
      hr := S_OK;
    }
  }
}
