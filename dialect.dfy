/** Schema dialect detection (schema.c, schema_type_from_xmlDocPtr): a parsed
    document is a W3C XML Schema (XSD), a Microsoft XML-Data Reduced schema
    (XDR), or neither, judged only by the local name and the namespace URI of
    its root element. */
module Dialect {
  import opened Common

  /** Root element signature of a W3C XML Schema document. */
  const XsdSchema: string := "schema"
  const XsdNamespace: string := "http://www.w3.org/2001/XMLSchema"

  /** Root element signature of an XDR schema document. */
  const XdrSchema: string := "Schema"
  const XdrNamespace: string := "urn:schemas-microsoft-com:xml-data"

  /** A root element: its local name and, when it carries a namespace, that
      namespace's URI (`root->ns->href`). */
  datatype Root = Root(name: string, ns: Option<string>)

  /** A parsed document. Its tree is opaque; `handle` tells two allocations
      apart and `root` is what `xmlDocGetRootElement` returns. */
  datatype Doc = Doc(handle: nat, root: Option<Root>)

  datatype SchemaType = Invalid | Xdr | Xsd

  /** The root exists, carries a namespace, and matches `name` and `ns`
      exactly (byte-wise, case-sensitive, as `xmlStrEqual`). */
  predicate HasSignature(root: Option<Root>, name: string, ns: string) {
    root.Some? && root.value.ns == Some(ns) && root.value.name == name
  }

  /** The dialect of `doc`. */
  function SchemaTypeOf(doc: Doc): (t: SchemaType)
    ensures t == Xdr <==> HasSignature(doc.root, XdrSchema, XdrNamespace)
    ensures t == Xsd <==> HasSignature(doc.root, XsdSchema, XsdNamespace)
    ensures t == Invalid <==>
              !HasSignature(doc.root, XdrSchema, XdrNamespace) &&
              !HasSignature(doc.root, XsdSchema, XsdNamespace)
  {
    SignaturesDisjoint(doc.root);
    match doc.root
    case None => Invalid
    case Some(root) =>
      if root.ns.None? then Invalid
      else if root.name == XdrSchema && root.ns.value == XdrNamespace then Xdr
      else if root.name == XsdSchema && root.ns.value == XsdNamespace then Xsd
      else Invalid
  }

  /** No root element matches both signatures: the names differ in the case
      of their first letter. */
  lemma SignaturesDisjoint(root: Option<Root>)
    ensures !(HasSignature(root, XdrSchema, XdrNamespace) &&
              HasSignature(root, XsdSchema, XsdNamespace))
  {
  }

  /** Detection looks at the root only: a deep copy (same tree, new handle)
      has the dialect of its original. */
  lemma CopyKeepsDialect(doc: Doc, handle: nat)
    ensures SchemaTypeOf(Doc(handle, doc.root)) == SchemaTypeOf(doc)
  {
  }

  /** Comparison is exact: a root with a namespace is XSD only for the XSD
      name and namespace, and XDR only for the XDR name and namespace, byte
      for byte; any other name or namespace, such as "SCHEMA" or the XDR
      name in the XSD namespace, is not that dialect. */
  lemma DetectionIsExact(handle: nat, name: string, ns: string)
    ensures SchemaTypeOf(Doc(handle, Some(Root(name, Some(ns))))) == Xsd <==>
              name == XsdSchema && ns == XsdNamespace
    ensures SchemaTypeOf(Doc(handle, Some(Root(name, Some(ns))))) == Xdr <==>
              name == XdrSchema && ns == XdrNamespace
    ensures name == "SCHEMA" ==> SchemaTypeOf(Doc(handle, Some(Root(name, Some(ns))))) == Invalid
  {
    assert "SCHEMA"[0] != XsdSchema[0] && "SCHEMA"[1] != XdrSchema[1];
  }

  /** A root without a namespace is never a schema, whatever its name. */
  lemma NoNamespaceIsInvalid(handle: nat, name: string)
    ensures SchemaTypeOf(Doc(handle, Some(Root(name, None)))) == Invalid
    ensures SchemaTypeOf(Doc(handle, None)) == Invalid
  {
  }
}
