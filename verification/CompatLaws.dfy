/** A report without breaking changes is sound for the protobuf wire format. */
module CompatLaws {
  import opened Bytes
  import opened Schema
  import opened Ast
  import opened Compat
  import opened GoProtoLaws
  import GoProto

  /** The kind the Go generator sees for a type. */
  function KindOf(t: TypeNode): Kind {
    match t.tag
    case T_INT32 => Int32
    case T_INT64 => Int64
    case T_STRING => Text
    case T_BINARY => Binary
    case T_BOOL => Bool
    case T_DOUBLE => Double
    case _ => Composite
  }

  function FieldOf(f: FieldNode): Field { Field(f.name, f.id, KindOf(f.ty)) }

  function SchemaOf(s: StructNode): (schema: seq<Field>)
    ensures |schema| == |s.fields|
  {
    seq(|s.fields|, i requires 0 <= i < |s.fields| => FieldOf(s.fields[i]))
  }

  /** Distinct names, and distinct IDs in 0..15 for the fields that are written. */
  predicate Deployable(s: StructNode) {
    DistinctNames(s.fields) && DistinctIds(SchemaOf(s)) && OneByteTags(SchemaOf(s))
  }

  /** No breaking entry for the fields of this struct. */
  ghost predicate Compatible(o: StructNode, n: StructNode) {
    forall c :: !FieldBreaks(FieldIndex(o.fields), FieldIndex(n.fields), c)
  }

  lemma SchemaElements(s: StructNode)
    ensures forall f :: f in s.fields ==> FieldOf(f) in SchemaOf(s)
    ensures forall g :: g in SchemaOf(s) ==> exists f :: f in s.fields && g == FieldOf(f)
  {
    var schema := SchemaOf(s);
    forall f | f in s.fields
      ensures FieldOf(f) in schema
    {
      var i :| 0 <= i < |s.fields| && s.fields[i] == f;
      assert schema[i] == FieldOf(f);
    }
    forall g | g in schema
      ensures exists f :: f in s.fields && g == FieldOf(f)
    {
      var i :| 0 <= i < |schema| && schema[i] == g;
      assert s.fields[i] in s.fields;
    }
  }

  /** Every old field is still there, under the same name, ID and type. */
  lemma OldFieldKept(o: StructNode, n: StructNode, f: FieldNode) returns (g: FieldNode)
    requires Compatible(o, n) && DistinctNames(o.fields) && DistinctNames(n.fields) && f in o.fields
    ensures g in n.fields && g.name == f.name && g.id == f.id && g.ty == f.ty
  {
    hide FieldIndex;
    IndexFinds(o.fields);
    IndexFinds(n.fields);
    var os, ns := FieldIndex(o.fields), FieldIndex(n.fields);
    assert !FieldBreaks(os, ns, RemovedField("", f.name));
    assert !FieldBreaks(os, ns, ChangedId("", f.name));
    assert !FieldBreaks(os, ns, ChangedType("", f.name));
    g := ns[f.name];
  }

  /** Old and new fields with the same ID are the same field. */
  lemma SameIdSameField(o: StructNode, n: StructNode, f: FieldNode, g: FieldNode)
    requires Compatible(o, n) && Deployable(o) && Deployable(n)
    requires f in o.fields && g in n.fields && f.id == g.id
    ensures f.name == g.name && f.ty == g.ty
  {
    hide FieldBreaks, FieldIndex, OneByteTags;
    var g' := OldFieldKept(o, n, f);
    SchemaElements(n);
    DistinctFields(SchemaOf(n));
    var i :| 0 <= i < |n.fields| && n.fields[i] == g;
    var j :| 0 <= j < |n.fields| && n.fields[j] == g';
    assert SchemaOf(n)[i].id == SchemaOf(n)[j].id;
  }

  lemma CompatibleKinds(o: StructNode, n: StructNode)
    requires Compatible(o, n) && Deployable(o) && Deployable(n)
    ensures KindsAgree(SchemaOf(o), SchemaOf(n)) && KindsAgree(SchemaOf(n), SchemaOf(o))
  {
    hide Compatible, Deployable;
    SchemaElements(o);
    SchemaElements(n);
    forall f, g | f in SchemaOf(o) && g in SchemaOf(n) && f.id == g.id
      ensures f.kind == g.kind
    {
      var f' :| f' in o.fields && f == FieldOf(f');
      var g' :| g' in n.fields && g == FieldOf(g');
      SameIdSameField(o, n, f', g');
    }
  }

  /** The value of a field as far as the wire carries it. */
  function Carried(x: Message, f: FieldNode): Value {
    if GoProto.OnWire(KindOf(f.ty)) then Get(x, FieldOf(f)) else Zero(KindOf(f.ty))
  }

  lemma ProjectOf(writer: StructNode, reader: StructNode, x: Message, g: FieldNode)
    requires Deployable(writer) && Deployable(reader) && g in reader.fields
    ensures g.id in Project(SchemaOf(writer), x, SchemaOf(reader))
    ensures forall f :: f in writer.fields && f.id == g.id && f.ty == g.ty ==>
              Project(SchemaOf(writer), x, SchemaOf(reader))[g.id] == Carried(x, f)
    ensures (forall f :: f in writer.fields ==> f.id != g.id) ==>
              Project(SchemaOf(writer), x, SchemaOf(reader))[g.id] == Zero(KindOf(g.ty))
  {
    hide Lookup, OneByteTags, DistinctNames;
    SchemaElements(writer);
    SchemaElements(reader);
    var zero := ZeroMessage(SchemaOf(reader));
    assert FieldOf(g) in SchemaOf(reader) && zero[g.id] == Zero(KindOf(g.ty));
    forall f | f in writer.fields && f.id == g.id
      ensures Lookup(SchemaOf(writer), g.id) == Some(FieldOf(f))
    {
      LookupUnique(SchemaOf(writer), FieldOf(f));
    }
  }

  /** Bytes of the old struct under the new reader: every old field as it was, and every
      added field zero. */
  ghost predicate OldBytesRead(o: StructNode, n: StructNode, x: Message) {
    var r := GoProto.Unmarshal(SchemaOf(n), GoProto.Encode(SchemaOf(o), x), 0, ZeroMessage(SchemaOf(n)));
    && r.Decoded?
    && (forall f :: f in o.fields ==> f.id in r.x && r.x[f.id] == Carried(x, f))
    && (forall g :: g in n.fields && (forall f :: f in o.fields ==> f.name != g.name) ==>
          g.id in r.x && r.x[g.id] == Zero(KindOf(g.ty)))
  }

  /** Bytes of the new struct under the old reader: exactly the old fields. */
  ghost predicate NewBytesRead(o: StructNode, n: StructNode, x: Message) {
    var r := GoProto.Unmarshal(SchemaOf(o), GoProto.Encode(SchemaOf(n), x), 0, ZeroMessage(SchemaOf(o)));
    && r.Decoded? && r.x.Keys == Ids(SchemaOf(o))
    && (forall f :: f in o.fields ==> f.id in r.x && r.x[f.id] == Carried(x, f))
  }

  /** Upgrading a reader: what an old writer sends arrives in full, and added fields are
      zero. */
  lemma OldBytesNewReader(o: StructNode, n: StructNode, x: Message)
    requires Compatible(o, n) && Deployable(o) && Deployable(n)
    requires |GoProto.Encode(SchemaOf(o), x)| < TWO_63
    ensures OldBytesRead(o, n, x)
  {
    hide Compatible, GoProto.Encode, GoProto.Unmarshal, Project, Carried, KindOf, ZeroMessage, KindsAgree;
    CompatibleKinds(o, n);
    Transfer(SchemaOf(o), SchemaOf(n), x);
    var y := Project(SchemaOf(o), x, SchemaOf(n));
    forall f | f in o.fields
      ensures f.id in y && y[f.id] == Carried(x, f)
    {
      var g := OldFieldKept(o, n, f);
      ProjectOf(o, n, x, g);
    }
    forall g | g in n.fields && (forall f :: f in o.fields ==> f.name != g.name)
      ensures g.id in y && y[g.id] == Zero(KindOf(g.ty))
    {
      forall f | f in o.fields
        ensures f.id != g.id
      {
        if f.id == g.id { SameIdSameField(o, n, f, g); }
      }
      ProjectOf(o, n, x, g);
    }
  }

  /** Upgrading a writer: an old reader gets exactly its own fields of the new struct. */
  lemma NewBytesOldReader(o: StructNode, n: StructNode, x: Message)
    requires Compatible(o, n) && Deployable(o) && Deployable(n)
    requires |GoProto.Encode(SchemaOf(n), x)| < TWO_63
    ensures NewBytesRead(o, n, x)
  {
    hide Compatible, GoProto.Encode, GoProto.Unmarshal, KindOf, KindsAgree, Lookup;
    CompatibleKinds(o, n);
    Transfer(SchemaOf(n), SchemaOf(o), x);
    var y := Project(SchemaOf(n), x, SchemaOf(o));
    forall f | f in o.fields
      ensures f.id in y && y[f.id] == Carried(x, f)
    {
      var g := OldFieldKept(o, n, f);
      ProjectOf(n, o, x, f);
      assert FieldOf(g) == FieldOf(f);
    }
  }

  /** The report has no breaking entry. */
  ghost predicate Clean(os: Structs, ns: Structs) {
    forall c :: !Breaks(os, ns, c)
  }

  /** The verdict of the whole report: with no breaking entry, every old struct is still
      there and compatible with its new version. */
  lemma CleanReportMeansCompatible(os: Structs, ns: Structs, s: string)
    requires Clean(os, ns) && s in os
    ensures s in ns && Compatible(os[s], ns[s])
  {
    hide FieldIndex, FieldBreaks;
    var removed := RemovedStruct(s);
    assert !Breaks(os, ns, removed);
    forall c
      ensures !FieldBreaks(FieldIndex(os[s].fields), FieldIndex(ns[s].fields), c)
    {
      var c' := Rename(c, s);
      RenameSame(FieldIndex(os[s].fields), FieldIndex(ns[s].fields), c, s);
      assert !Breaks(os, ns, c');
    }
  }

  /** The struct with the fields `n` can replace the one with the fields `o`: every old field
      is there with its ID and type and is not newly required, and new fields are optional. */
  ghost predicate Succeeds(o: Fields, n: Fields) {
    && (forall f :: f in o ==> f in n && n[f].id == o[f].id && n[f].ty == o[f].ty && (o[f].optional ==> n[f].optional))
    && (forall f :: f in n && f !in o ==> n[f].optional)
  }

  /** Fields differ in nothing but fields that have become optional. */
  ghost predicate OnlyRelaxes(o: Fields, n: Fields) {
    o.Keys == n.Keys && Succeeds(o, n)
  }

  lemma NoFieldBreaks(o: Fields, n: Fields)
    ensures (forall c :: !FieldBreaks(o, n, c)) <==> Succeeds(o, n)
  {
    if forall c :: !FieldBreaks(o, n, c) {
      forall f | f in o
        ensures f in n && n[f].id == o[f].id && n[f].ty == o[f].ty && (o[f].optional ==> n[f].optional)
      {
        assert !FieldBreaks(o, n, RemovedField("", f)) && !FieldBreaks(o, n, ChangedId("", f));
        assert !FieldBreaks(o, n, ChangedType("", f)) && !FieldBreaks(o, n, BecameRequired("", f));
      }
      forall f | f in n && f !in o ensures n[f].optional {
        assert !FieldBreaks(o, n, AddedRequired("", f));
      }
    }
  }

  lemma NoFieldSafe(o: Fields, n: Fields)
    requires Succeeds(o, n)
    ensures (forall c :: !FieldSafe(o, n, c)) <==> OnlyRelaxes(o, n)
  {
    if forall c :: !FieldSafe(o, n, c) {
      forall f | f in n ensures f in o {
        assert !FieldSafe(o, n, AddedOptional("", f));
      }
      assert o.Keys == n.Keys;
    }
  }

  /** A new field is reported once: as breaking if it is required, else as safe. */
  lemma NewFieldExactly(o: Fields, n: Fields, s: string, f: string)
    requires f in n && f !in o
    ensures FieldBreaks(o, n, AddedRequired(s, f)) <==> !FieldSafe(o, n, AddedOptional(s, f))
    ensures FieldSafe(o, n, AddedOptional(s, f)) <==> n[f].optional
  {
  }

  /** For any two schemas the report has no breaking entry if and only if every old struct is
      still there and its new fields succeed the old ones. */
  lemma CleanExactly(os: Structs, ns: Structs)
    ensures Clean(os, ns) <==>
            forall s :: s in os ==> s in ns && Succeeds(FieldIndex(os[s].fields), FieldIndex(ns[s].fields))
  {
    hide FieldIndex, FieldBreaks, Succeeds;
    if Clean(os, ns) {
      forall s | s in os
        ensures s in ns && Succeeds(FieldIndex(os[s].fields), FieldIndex(ns[s].fields))
      {
        CleanReportMeansCompatible(os, ns, s);
        NoFieldBreaks(FieldIndex(os[s].fields), FieldIndex(ns[s].fields));
      }
    } else {
      var c :| Breaks(os, ns, c);
      if c.struct in ns {
        NoFieldBreaks(FieldIndex(os[c.struct].fields), FieldIndex(ns[c.struct].fields));
      }
    }
  }

  ghost predicate AllRelax(os: Structs, ns: Structs) {
    && os.Keys == ns.Keys
    && forall s :: s in os ==> OnlyRelaxes(FieldIndex(os[s].fields), FieldIndex(ns[s].fields))
  }

  /** The report is empty if and only if nothing but requirements have been relaxed. */
  lemma EmptyExactly(os: Structs, ns: Structs)
    ensures Clean(os, ns) && (forall c :: !IsSafe(os, ns, c)) <==> AllRelax(os, ns)
  {
    hide FieldIndex, FieldSafe, Clean, Succeeds;
    CleanExactly(os, ns);
    if Clean(os, ns) && forall c :: !IsSafe(os, ns, c) {
      forall s | s in ns ensures s in os {
        assert !IsSafe(os, ns, AddedStruct(s));
      }
      assert os.Keys == ns.Keys;
      forall s | s in os ensures OnlyRelaxes(FieldIndex(os[s].fields), FieldIndex(ns[s].fields)) {
        var o, n := FieldIndex(os[s].fields), FieldIndex(ns[s].fields);
        forall c ensures !FieldSafe(o, n, c) {
          SafeNames(o, n, c, s);
          assert !IsSafe(os, ns, Rename(c, s));
        }
        NoFieldSafe(o, n);
      }
    } else if AllRelax(os, ns) {
      forall c ensures !IsSafe(os, ns, c) {
        if c.struct in os {
          NoFieldSafe(FieldIndex(os[c.struct].fields), FieldIndex(ns[c.struct].fields));
        }
      }
    }
  }

  lemma SafeNames(o: Fields, n: Fields, c: Change, s: string)
    ensures FieldSafe(o, n, c) ==> FieldSafe(o, n, Rename(c, s)) && !Rename(c, s).AddedStruct?
  {
  }

  /** Structs of the two schemas whose bytes either side can read as its own. */
  ghost predicate Interchangeable(o: StructNode, n: StructNode) {
    && (forall x: Message :: |GoProto.Encode(SchemaOf(o), x)| < TWO_63 ==> OldBytesRead(o, n, x))
    && (forall x: Message :: |GoProto.Encode(SchemaOf(n), x)| < TWO_63 ==> NewBytesRead(o, n, x))
  }

  lemma CompatibleInterchange(o: StructNode, n: StructNode)
    requires Compatible(o, n) && Deployable(o) && Deployable(n)
    ensures Interchangeable(o, n)
  {
    hide OldBytesRead, NewBytesRead, Compatible, Deployable, GoProto.Encode;
    forall x: Message | |GoProto.Encode(SchemaOf(o), x)| < TWO_63
      ensures OldBytesRead(o, n, x)
    {
      OldBytesNewReader(o, n, x);
    }
    forall x: Message | |GoProto.Encode(SchemaOf(n), x)| < TWO_63
      ensures NewBytesRead(o, n, x)
    {
      NewBytesOldReader(o, n, x);
    }
  }

  /** The verdict end to end: the report is breaking exactly unless every old struct still
      exists and its new fields succeed the old ones; and if it is not, the bytes of either
      version read as they should under the other. */
  method Verdict(oldStructs: seq<StructNode>, newStructs: seq<StructNode>) returns (r: Report)
    ensures var os, ns := StructIndex(oldStructs), StructIndex(newStructs);
            !r.hasBreaking <==>
              forall s :: s in os ==> s in ns && Succeeds(FieldIndex(os[s].fields), FieldIndex(ns[s].fields))
    ensures var os, ns := StructIndex(oldStructs), StructIndex(newStructs);
            !r.hasBreaking ==>
              forall s :: s in os ==>
                s in ns && (Deployable(os[s]) && Deployable(ns[s]) ==> Interchangeable(os[s], ns[s]))
  {
    hide Breaks, IsSafe, Compatible, Deployable, Interchangeable, StructIndex, Succeeds, FieldIndex;
    r := DiffStructs(oldStructs, newStructs);
    ghost var os, ns := StructIndex(oldStructs), StructIndex(newStructs);
    CleanExactly(os, ns);
    if r.hasBreaking {
      assert r.breaking[0] in r.breaking;
    } else {
      forall c
        ensures !Breaks(os, ns, c)
      {
        assert c !in r.breaking;
      }
      forall s | s in os
        ensures s in ns && (Deployable(os[s]) && Deployable(ns[s]) ==> Interchangeable(os[s], ns[s]))
      {
        CleanReportMeansCompatible(os, ns, s);
        if Deployable(os[s]) && Deployable(ns[s]) {
          CompatibleInterchange(os[s], ns[s]);
        }
      }
    }
  }

  /** The same change, reported for struct `s`. */
  function Rename(c: Change, s: string): Change { c.(struct := s) }

  lemma RenameSame(os: Fields, ns: Fields, c: Change, s: string)
    ensures FieldBreaks(os, ns, c) ==> FieldBreaks(os, ns, Rename(c, s)) && !Rename(c, s).RemovedStruct?
  {
  }
}
