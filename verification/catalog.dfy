/** The module's metadata as the decoder sees it, and the catalog of fields
    that carry embedded (RVA) initial data (Program.cs lines 19-27). */
module FieldCatalog {
  import opened Outcomes
  import opened Cil

  /** A field declaration. `initialValue` is `None` when the metadata reader
      yields a null initial value. */
  datatype FieldDecl = FieldDecl(id: FieldId, hasFieldRva: bool, initialValue: Option<seq<Byte>>)

  /** A method declaration; `body` is `None` for a method without a body. */
  datatype MethodDecl = MethodDecl(name: string, body: Option<seq<Instr>>)

  datatype TypeDecl = TypeDecl(fullName: string, fields: seq<FieldDecl>, methods: seq<MethodDecl>)

  /** Field identity to the value stored for it: the field's initial value,
      which may be null. */
  type Catalog = map<FieldId, Option<seq<Byte>>>

  /** The fields of all types, in enumeration order. */
  function AllFields(types: seq<TypeDecl>): (fs: seq<FieldDecl>)
    ensures forall f :: f in fs <==> exists t :: t in types && f in t.fields
  {
    if |types| == 0 then [] else types[0].fields + AllFields(types[1..])
  }

  /** The catalog built by visiting `fields` in order; a later write for the
      same identity replaces an earlier one, as an indexer assignment does. */
  function CatalogOf(fields: seq<FieldDecl>): (c: Catalog)
    ensures forall id :: id in c <==> exists f :: f in fields && f.id == id && f.hasFieldRva
    ensures forall id :: id in c ==>
              exists f :: f in fields && f.id == id && f.hasFieldRva && c[id] == f.initialValue
  {
    if |fields| == 0 then map[]
    else
      var c := CatalogOf(fields[..|fields| - 1]);
      var f := fields[|fields| - 1];
      assert fields == fields[..|fields| - 1] + [f];
      if f.hasFieldRva then c[f.id := f.initialValue] else c
  }

  /** The catalog of a whole module: exactly the fields that have RVA data,
      each mapped to the initial value of such a field with that identity. */
  function BuildCatalog(types: seq<TypeDecl>): (c: Catalog)
    ensures forall id :: id in c <==>
              exists t, f :: t in types && f in t.fields && f.id == id && f.hasFieldRva
    ensures forall id :: id in c ==>
              exists t, f :: t in types && f in t.fields && f.id == id && f.hasFieldRva && c[id] == f.initialValue
  {
    CatalogOf(AllFields(types))
  }

  /** Field identity is reference identity: one id, one declaration. */
  ghost predicate IdentitiesUnique(types: seq<TypeDecl>)
  {
    forall t, u, f, g :: t in types && u in types && f in t.fields && g in u.fields && f.id == g.id ==> f == g
  }

  /** Every RVA field's initial value is what the catalog stores for it, and a
      field without RVA data never has an entry. */
  lemma CatalogStoresInitialValue(types: seq<TypeDecl>, t: TypeDecl, f: FieldDecl)
    requires IdentitiesUnique(types)
    requires t in types && f in t.fields
    ensures f.hasFieldRva ==> f.id in BuildCatalog(types) && BuildCatalog(types)[f.id] == f.initialValue
    ensures !f.hasFieldRva ==> f.id !in BuildCatalog(types)
  {
  }
}
