/** Cache entry construction and teardown (schema.c, cache_entry_from_url,
    cache_entry_from_xsd_doc, cache_entry_from_xdr_doc, and the teardown half
    of cache_entry_release).

    The schema compiler and the document bridge are external: what the
    compiler returns is a parameter, and every call into either collaborator
    is recorded as an `Effect`, in order, so that ownership of the parser
    context, the copied document and the schema can be stated. */
module Construction {
  import opened Common
  import opened Dialect

  /** Version tag the document bridge records when it adopts a document. */
  datatype DomVersion = DomDocument30 | DomDocument40

  /** A compiled schema; `doc` is the parsed document it points to
      (`schema->doc`), which `xmlSchemaFree` frees when it is still set. */
  datatype Schema = Schema(id: nat, doc: Option<Doc>)

  /** Calls into the compiler, the document bridge and the heap. */
  datatype Effect =
    | NewParserCtxt                              // xmlSchemaNew(Doc)ParserCtxt succeeded
    | FreeParserCtxt                             // xmlSchemaFreeParserCtxt
    | CopyDoc(src: Doc, copy: Doc)               // xmlCopyDoc(src, 1)
    | FreeDoc(doc: Doc)                          // xmlFreeDoc: the tree is gone
    | DocInit(doc: Doc, version: DomVersion)     // xmldoc_init: the bridge adopts doc
    | DocAddRef(doc: Doc)                        // xmldoc_add_ref
    | DocRelease(doc: Doc)                       // xmldoc_release
    | DetachSchemaDoc(schema: nat)               // schema->doc = NULL
    | FreeSchema(schema: nat)                    // xmlSchemaFree
    | FreeEntry                                  // heap_free(entry)

  /** What the compiler does with a URL: no parser context, a failed parse,
      or a schema together with the document it parsed. */
  datatype UrlOutcome = NoParserCtxt | UrlParseFailed | UrlParsed(schema: nat, doc: Doc)

  /** What the compiler does with an in-memory document. */
  datatype DocOutcome = DocParseFailed | DocParsed(schema: nat)

  /** The answers of the external collaborators for one `add`: the compiler's
      outcomes and the handle `xmlCopyDoc` gives the copy it allocates. */
  datatype Collaborators = Collaborators(fromUrl: UrlOutcome, fromDoc: DocOutcome, copyHandle: nat)

  /** The fields of a `cache_entry` struct. */
  datatype EntryState = EntryState(kind: SchemaType, schema: Option<Schema>, doc: Doc, ref: int)

  /** A construction's result (`NULL` is `None`) and what it did on the way. */
  datatype Built = Built(entry: Option<EntryState>, effects: seq<Effect>)

  /** The fields of a live entry: a dialect, a compiled schema exactly for
      XSD, and that schema still pointing at the entry's document. */
  predicate Consistent(kind: SchemaType, schema: Option<Schema>, doc: Doc) {
    && kind != Invalid
    && (kind == Xsd <==> schema.Some?)
    && (schema.Some? ==> schema.value.doc == Some(doc))
  }

  predicate WellFormed(e: EntryState) {
    Consistent(e.kind, e.schema, e.doc)
  }

  /** `c` is a deep copy of `d`: the same tree under a different handle. */
  predicate IsCopyOf(c: Doc, d: Doc) {
    c.root == d.root && c.handle != d.handle
  }

  /** Every parser context created is freed. */
  predicate ContextsBalanced(fx: seq<Effect>) {
    multiset(fx)[NewParserCtxt] == multiset(fx)[FreeParserCtxt]
  }

  /** Every document copied is either freed or handed to the bridge. */
  predicate CopiesAccountedFor(fx: seq<Effect>) {
    forall i :: 0 <= i < |fx| && fx[i].CopyDoc? ==>
      FreeDoc(fx[i].copy) in fx || DocAddRef(fx[i].copy) in fx
  }

  /** The bridge adopts `d` and holds exactly one reference to it, and
      nothing frees `d` outright. */
  predicate Adopts(fx: seq<Effect>, d: Doc) {
    && (DocInit(d, DomDocument30) in fx || DocInit(d, DomDocument40) in fx)
    && multiset(fx)[DocAddRef(d)] == 1
    && FreeDoc(d) !in fx
  }

  /** What every construction path guarantees: contexts and copies are not
      leaked, construction never releases a bridge reference, a failure
      hands nothing to the bridge, and a success is a well-formed entry with
      `ref == 0` owning one bridge reference to its document. */
  predicate Clean(b: Built) {
    && ContextsBalanced(b.effects)
    && CopiesAccountedFor(b.effects)
    && (forall i :: 0 <= i < |b.effects| ==> !b.effects[i].DocRelease?)
    && match b.entry
       case None =>
         forall i :: 0 <= i < |b.effects| ==> !b.effects[i].DocInit? && !b.effects[i].DocAddRef?
       case Some(e) =>
         WellFormed(e) && e.ref == 0 && Adopts(b.effects, e.doc)
  }

  /** cache_entry_from_url: an XSD entry for the document the compiler
      parsed from the URL, or `NULL` when no parser context could be made or
      the parse failed. */
  function FromUrl(outcome: UrlOutcome): (b: Built)
    ensures Clean(b)
    ensures b.entry.Some? <==> outcome.UrlParsed?
    ensures b.entry.Some? ==> b.entry.value.kind == Xsd && b.entry.value.doc == outcome.doc
    ensures b.entry.Some? ==> DocInit(b.entry.value.doc, DomDocument40) in b.effects
    ensures outcome.NoParserCtxt? ==> b.effects == []
  {
    match outcome
    case NoParserCtxt => Built(None, [])
    case UrlParseFailed => UrlRejected()
    case UrlParsed(s, d) => UrlCompiled(s, d)
  }

  /** The failing half of cache_entry_from_url: the parser context is made
      and freed, and nothing else happens. */
  function UrlRejected(): (b: Built)
    ensures Clean(b) && b.entry.None? && b.effects != []
  {
    Built(None, [NewParserCtxt, FreeParserCtxt])
  }

  /** The succeeding half of cache_entry_from_url: schema `s` compiled
      from document `d`, which the bridge adopts and the entry owns. */
  function UrlCompiled(s: nat, d: Doc): (b: Built)
    ensures Clean(b) && b.entry.Some?
    ensures b.entry.value.kind == Xsd && b.entry.value.doc == d
    ensures DocInit(d, DomDocument40) in b.effects && DocInit(d, DomDocument30) !in b.effects
  {
    Built(Some(EntryState(Xsd, Some(Schema(s, Some(d))), d, 0)),
          [NewParserCtxt, DocInit(d, DomDocument40), DocAddRef(d), FreeParserCtxt])
  }

  /** cache_entry_from_xsd_doc: compile a private copy of `doc`; on failure
      the copy is freed and the result is `NULL`. */
  function FromXsdDoc(doc: Doc, copyHandle: nat, outcome: DocOutcome): (b: Built)
    requires copyHandle != doc.handle
    ensures Clean(b)
    ensures b.entry.Some? <==> outcome.DocParsed?
    ensures b.entry.Some? ==> b.entry.value.kind == Xsd && IsCopyOf(b.entry.value.doc, doc)
    ensures b.entry.Some? ==> DocInit(b.entry.value.doc, DomDocument40) in b.effects
    ensures b.entry.None? ==> FreeDoc(Doc(copyHandle, doc.root)) in b.effects
  {
    var copy := Doc(copyHandle, doc.root);
    match outcome
    case DocParseFailed => XsdCopyRejected(doc, copy)
    case DocParsed(s) => XsdCopyCompiled(doc, copy, s)
  }

  /** The failing half of cache_entry_from_xsd_doc: the compiler rejects
      the copy, which is freed along with the parser context. */
  function XsdCopyRejected(doc: Doc, copy: Doc): (b: Built)
    requires IsCopyOf(copy, doc)
    ensures Clean(b) && b.entry.None? && FreeDoc(copy) in b.effects
  {
    Built(None, [CopyDoc(doc, copy), NewParserCtxt, FreeDoc(copy), FreeParserCtxt])
  }

  /** The succeeding half of cache_entry_from_xsd_doc: schema `s` compiled
      from the copy, which the bridge adopts and the entry owns. */
  function XsdCopyCompiled(doc: Doc, copy: Doc, s: nat): (b: Built)
    requires IsCopyOf(copy, doc)
    ensures Clean(b) && b.entry.Some?
    ensures b.entry.value.kind == Xsd && b.entry.value.doc == copy
    ensures DocInit(copy, DomDocument40) in b.effects && DocInit(copy, DomDocument30) !in b.effects
  {
    Built(Some(EntryState(Xsd, Some(Schema(s, Some(copy))), copy, 0)),
          [CopyDoc(doc, copy), NewParserCtxt, DocInit(copy, DomDocument40), DocAddRef(copy), FreeParserCtxt])
  }

  /** cache_entry_from_xdr_doc: always succeeds; the entry owns a copy of
      `doc` and no compiled schema (XDR compilation is not supported). */
  function FromXdrDoc(doc: Doc, copyHandle: nat): (b: Built)
    requires copyHandle != doc.handle
    ensures Clean(b)
    ensures b.entry.Some?
    ensures b.entry.value.kind == Xdr && b.entry.value.schema.None?
    ensures IsCopyOf(b.entry.value.doc, doc)
    ensures DocInit(b.entry.value.doc, DomDocument30) in b.effects
  {
    var copy := Doc(copyHandle, doc.root);
    Built(Some(EntryState(Xdr, None, copy, 0)),
          [CopyDoc(doc, copy), DocInit(copy, DomDocument30), DocAddRef(copy)])
  }

  /** The document branch of `add`: detect the dialect, then take the XSD or
      the XDR path; an invalid document yields `NULL` and touches nothing. */
  function FromDocument(doc: Doc, env: Collaborators): (b: Built)
    requires env.copyHandle != doc.handle
    ensures Clean(b)
    ensures b.entry.Some? ==> b.entry.value.kind == SchemaTypeOf(doc) && IsCopyOf(b.entry.value.doc, doc)
    ensures b.entry.Some? <==>
              SchemaTypeOf(doc) == Xdr || (SchemaTypeOf(doc) == Xsd && env.fromDoc.DocParsed?)
    ensures SchemaTypeOf(doc) == Invalid ==> b.effects == []
  {
    match SchemaTypeOf(doc)
    case Xsd => FromXsdDoc(doc, env.copyHandle, env.fromDoc)
    case Xdr => FromXdrDoc(doc, env.copyHandle)
    case Invalid => Built(None, [])
  }

  /** xmlSchemaFree: frees the schema, and first the document it still
      points to, if any. */
  function SchemaFreeEffects(s: Schema): (fx: seq<Effect>)
    ensures |fx| > 0 && fx[|fx| - 1] == FreeSchema(s.id)
    ensures forall d :: FreeDoc(d) in fx <==> s.doc == Some(d)
  {
    (if s.doc.Some? then [FreeDoc(s.doc.value)] else []) + [FreeSchema(s.id)]
  }

  /** The teardown cache_entry_release runs when the count reaches 0. For
      XSD: release the document to the bridge, detach it from the schema,
      free the schema, free the entry. For XDR: release the document, free
      the entry. */
  function Teardown(kind: SchemaType, schema: Option<Schema>, doc: Doc): (fx: seq<Effect>)
    requires Consistent(kind, schema, doc)
    ensures |fx| >= 2 && fx[0] == DocRelease(doc) && fx[|fx| - 1] == FreeEntry
    ensures kind == Xsd ==> DetachSchemaDoc(schema.value.id) in fx && FreeSchema(schema.value.id) in fx
  {
    if kind == Xsd then
      [DocRelease(doc), DetachSchemaDoc(schema.value.id)]
      + SchemaFreeEffects(schema.value.(doc := None))
      + [FreeEntry]
    else
      [DocRelease(doc), FreeEntry]
  }

  /** Teardown hands the document back to the bridge exactly once, never
      frees a document itself, and for XSD releases the document before it
      detaches and frees the schema; the entry is freed last. */
  lemma TeardownOrder(kind: SchemaType, schema: Option<Schema>, doc: Doc)
    requires Consistent(kind, schema, doc)
    ensures var fx := Teardown(kind, schema, doc);
      && fx[0] == DocRelease(doc)
      && multiset(fx)[DocRelease(doc)] == 1
      && (forall i :: 0 <= i < |fx| ==> !fx[i].FreeDoc?)
      && (kind == Xsd ==>
            fx[1] == DetachSchemaDoc(schema.value.id) && fx[2] == FreeSchema(schema.value.id))
      && (kind == Xdr ==> |fx| == 2)
      && fx[|fx| - 1] == FreeEntry
  {
  }

  /** Why the schema is detached first: a live XSD entry's schema still
      points at the entry's document, so freeing it as it is would free the
      document that the bridge is tracking. */
  lemma DetachIsNecessary(kind: SchemaType, schema: Option<Schema>, doc: Doc)
    requires Consistent(kind, schema, doc) && kind == Xsd
    ensures FreeDoc(doc) in SchemaFreeEffects(schema.value)
  {
  }

  /** Over a successful construction followed by its teardown, the bridge
      reference the entry took on its document is given back exactly once,
      the document is never freed outright, and every parser context is
      freed. */
  lemma LifecycleBalanced(b: Built)
    requires Clean(b) && b.entry.Some?
    ensures var e := b.entry.value;
      var fx := b.effects + Teardown(e.kind, e.schema, e.doc);
      && multiset(fx)[DocAddRef(e.doc)] == 1
      && multiset(fx)[DocRelease(e.doc)] == 1
      && FreeDoc(e.doc) !in fx
      && ContextsBalanced(fx)
  {
    var e := b.entry.value;
    TeardownOrder(e.kind, e.schema, e.doc);
    var t := Teardown(e.kind, e.schema, e.doc);
    assert forall x :: x in t ==> x != NewParserCtxt && x != FreeParserCtxt && x != DocAddRef(e.doc);
    assert multiset(b.effects + t) == multiset(b.effects) + multiset(t);
  }
}
