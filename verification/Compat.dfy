/** The schema compatibility checker, for structs: the report lists exactly the changes that
    break or extend the old schema. */
module Compat {
  import opened Ast

  /** The recursive comparison of the checker. */
  predicate TypesEqual(a: TypeNode, b: TypeNode) {
    if a.tag != b.tag then false
    else if a.name != b.name then false
    else if a.key.Nil? != b.key.Nil? then false
    else if a.key.Ref? && !TypesEqual(a.key.t, b.key.t) then false
    else if a.value.Nil? != b.value.Nil? then false
    else !(a.value.Ref? && !TypesEqual(a.value.t, b.value.t))
  }

  lemma {:induction false} TypesEqualIsEquality(a: TypeNode, b: TypeNode)
    ensures TypesEqual(a, b) <==> a == b
  {
    if a.key.Ref? && b.key.Ref? { TypesEqualIsEquality(a.key.t, b.key.t); }
    if a.value.Ref? && b.value.Ref? { TypesEqualIsEquality(a.value.t, b.value.t); }
  }

  // ---------------------------------------------------------------------- indexing

  /** Fields by name; a later duplicate replaces an earlier one. */
  function FieldIndex(fields: seq<FieldNode>): map<string, FieldNode> {
    if fields == [] then map[]
    else
      var last := fields[|fields| - 1];
      FieldIndex(fields[..|fields| - 1])[last.name := last]
  }

  function StructIndex(structs: seq<StructNode>): map<string, StructNode> {
    if structs == [] then map[]
    else
      var last := structs[|structs| - 1];
      StructIndex(structs[..|structs| - 1])[last.name := last]
  }

  method IndexFields(fields: seq<FieldNode>) returns (m: map<string, FieldNode>)
    ensures m == FieldIndex(fields)
  {
    m := map[];
    for k := 0 to |fields|
      invariant m == FieldIndex(fields[..k])
    {
      assert fields[..k + 1][..k] == fields[..k];
      m := m[fields[k].name := fields[k]];
    }
    assert fields[..|fields|] == fields;
  }

  method IndexStructs(structs: seq<StructNode>) returns (m: map<string, StructNode>)
    ensures m == StructIndex(structs)
  {
    m := map[];
    for k := 0 to |structs|
      invariant m == StructIndex(structs[..k])
    {
      assert structs[..k + 1][..k] == structs[..k];
      m := m[structs[k].name := structs[k]];
    }
    assert structs[..|structs|] == structs;
  }

  /** A name is indexed exactly if it is declared, and stands for its last declaration. */
  lemma {:induction false} FieldIndexIsLast(fields: seq<FieldNode>, name: string)
    ensures name in FieldIndex(fields) <==> exists i :: 0 <= i < |fields| && fields[i].name == name
    ensures name in FieldIndex(fields) ==>
              exists i :: 0 <= i < |fields| && fields[i] == FieldIndex(fields)[name] && fields[i].name == name
                          && forall j :: i < j < |fields| ==> fields[j].name != name
  {
    if fields != [] && fields[|fields| - 1].name != name {
      FieldIndexIsLast(fields[..|fields| - 1], name);
    }
  }

  lemma {:induction false} StructIndexIsLast(structs: seq<StructNode>, name: string)
    ensures name in StructIndex(structs) <==> exists i :: 0 <= i < |structs| && structs[i].name == name
    ensures name in StructIndex(structs) ==>
              exists i :: 0 <= i < |structs| && structs[i] == StructIndex(structs)[name] && structs[i].name == name
                          && forall j :: i < j < |structs| ==> structs[j].name != name
  {
    if structs != [] && structs[|structs| - 1].name != name {
      StructIndexIsLast(structs[..|structs| - 1], name);
    }
  }

  predicate DistinctNames(fields: seq<FieldNode>) {
    forall i, j :: 0 <= i < j < |fields| ==> fields[i].name != fields[j].name
  }

  lemma {:induction false} IndexFinds(fields: seq<FieldNode>)
    requires DistinctNames(fields)
    ensures forall f :: f in fields ==> f.name in FieldIndex(fields) && FieldIndex(fields)[f.name] == f
    ensures forall n :: n in FieldIndex(fields) ==> FieldIndex(fields)[n] in fields && FieldIndex(fields)[n].name == n
  {
    if fields != [] {
      var front, last := fields[..|fields| - 1], fields[|fields| - 1];
      IndexFinds(front);
      assert fields == front + [last];
      assert forall f :: f in front ==> f.name != last.name;
    }
  }

  // ------------------------------------------------------------------------ report

  datatype Change =
    | RemovedStruct(struct: string)
    | RemovedField(struct: string, field: string)
    | ChangedId(struct: string, field: string)
    | ChangedType(struct: string, field: string)
    | BecameRequired(struct: string, field: string)
    | AddedRequired(struct: string, field: string)
    | AddedOptional(struct: string, field: string)
    | AddedStruct(struct: string)

  datatype Report = Report(breaking: seq<Change>, safe: seq<Change>, hasBreaking: bool)

  type Fields = map<string, FieldNode>

  type Structs = map<string, StructNode>

  /** The breaking changes between the fields of one struct. */
  predicate FieldBreaks(os: Fields, ns: Fields, c: Change) {
    match c
    case RemovedField(_, f) => f in os && f !in ns
    case ChangedId(_, f) => f in os && f in ns && os[f].id != ns[f].id
    case ChangedType(_, f) => f in os && f in ns && os[f].ty != ns[f].ty
    case BecameRequired(_, f) => f in os && f in ns && os[f].optional && !ns[f].optional
    case AddedRequired(_, f) => f in ns && f !in os && !ns[f].optional
    case _ => false
  }

  predicate FieldSafe(os: Fields, ns: Fields, c: Change) {
    match c
    case AddedOptional(_, f) => f in ns && f !in os && ns[f].optional
    case _ => false
  }

  /** The breaking changes between two lists of structs. */
  predicate Breaks(os: Structs, ns: Structs, c: Change) {
    if c.RemovedStruct? then c.struct in os && c.struct !in ns
    else c.struct in os && c.struct in ns
         && FieldBreaks(FieldIndex(os[c.struct].fields), FieldIndex(ns[c.struct].fields), c)
  }

  predicate IsSafe(os: Structs, ns: Structs, c: Change) {
    if c.AddedStruct? then c.struct in ns && c.struct !in os
    else c.struct in os && c.struct in ns
         && FieldSafe(FieldIndex(os[c.struct].fields), FieldIndex(ns[c.struct].fields), c)
  }

  /** The breaking entries for one old field. */
  method CompareField(s: string, f: string, os: Fields, ns: Fields) returns (out: seq<Change>)
    requires f in os
    ensures forall c :: c in out <==> c.struct == s && FieldBreaks(os, ns, c) && !c.AddedRequired? && c.field == f
  {
    if f !in ns {
      return [RemovedField(s, f)];
    }
    var o, n := os[f], ns[f];
    out := [];
    if o.id != n.id {
      out := out + [ChangedId(s, f)];
    }
    TypesEqualIsEquality(o.ty, n.ty);
    if !TypesEqual(o.ty, n.ty) {
      out := out + [ChangedType(s, f)];
    }
    if o.optional && !n.optional {
      out := out + [BecameRequired(s, f)];
    }
  }

  /** Map iteration order is arbitrary in Go, and so it is here. */
  method CompareStruct(s: string, os: Fields, ns: Fields) returns (breaking: seq<Change>, safe: seq<Change>)
    ensures forall c :: c in breaking <==> c.struct == s && FieldBreaks(os, ns, c)
    ensures forall c :: c in safe <==> c.struct == s && FieldSafe(os, ns, c)
  {
    breaking, safe := [], [];
    var todo := os.Keys;
    while todo != {}
      invariant todo <= os.Keys
      invariant forall c :: c in breaking <==>
                  c.struct == s && FieldBreaks(os, ns, c) && !c.AddedRequired? && c.field in os.Keys - todo
      decreases todo
    {
      var f :| f in todo;
      var out := CompareField(s, f, os, ns);
      breaking := breaking + out;
      todo := todo - {f};
    }
    todo := ns.Keys;
    while todo != {}
      invariant todo <= ns.Keys
      invariant forall c :: c in breaking <==>
                  c.struct == s && FieldBreaks(os, ns, c) && (c.AddedRequired? ==> c.field in ns.Keys - todo)
      invariant forall c :: c in safe <==> c.struct == s && FieldSafe(os, ns, c) && c.field in ns.Keys - todo
      decreases todo
    {
      var f :| f in todo;
      if f !in os {
        if !ns[f].optional {
          breaking := breaking + [AddedRequired(s, f)];
        } else {
          safe := safe + [AddedOptional(s, f)];
        }
      }
      todo := todo - {f};
    }
  }

  method DiffStructs(oldStructs: seq<StructNode>, newStructs: seq<StructNode>) returns (r: Report)
    ensures var os, ns := StructIndex(oldStructs), StructIndex(newStructs);
            && (forall c :: c in r.breaking <==> Breaks(os, ns, c))
            && (forall c :: c in r.safe <==> IsSafe(os, ns, c))
    ensures r.hasBreaking <==> r.breaking != []
  {
    hide FieldIndex, FieldBreaks, FieldSafe, StructIndex;
    var os := IndexStructs(oldStructs);
    var ns := IndexStructs(newStructs);
    r := Report([], [], false);
    var todo := os.Keys;
    while todo != {}
      invariant todo <= os.Keys
      invariant forall c :: c in r.breaking <==> Breaks(os, ns, c) && c.struct in os.Keys - todo
      invariant forall c :: c in r.safe <==> !c.AddedStruct? && IsSafe(os, ns, c) && c.struct in os.Keys - todo
      invariant r.hasBreaking <==> r.breaking != []
      decreases todo
    {
      var s :| s in todo;
      if s !in ns {
        r := Report(r.breaking + [RemovedStruct(s)], r.safe, true);
      } else {
        var of := IndexFields(os[s].fields);
        var nf := IndexFields(ns[s].fields);
        var breaking, safe := CompareStruct(s, of, nf);
        NoStructChange(of, nf);
        r := Report(r.breaking + breaking, r.safe + safe, r.hasBreaking || breaking != []);
      }
      todo := todo - {s};
    }
    todo := ns.Keys;
    while todo != {}
      invariant todo <= ns.Keys
      invariant forall c :: c in r.breaking <==> Breaks(os, ns, c)
      invariant forall c :: c in r.safe <==> IsSafe(os, ns, c) && (c.AddedStruct? ==> c.struct in ns.Keys - todo)
      invariant r.hasBreaking <==> r.breaking != []
      decreases todo
    {
      var s :| s in todo;
      if s !in os {
        r := Report(r.breaking, r.safe + [AddedStruct(s)], r.hasBreaking);
      }
      todo := todo - {s};
    }
  }

  lemma NoStructChange(os: Fields, ns: Fields)
    ensures forall c :: FieldBreaks(os, ns, c) ==> !c.RemovedStruct?
    ensures forall c :: FieldSafe(os, ns, c) ==> !c.AddedStruct?
  {
  }
}
