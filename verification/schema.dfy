/** Attribute schemas (`AttributeSchema`): a builder for the facts that
    declare an attribute, and the map from value types to the builtin type
    entities. */
module Schemas {
  import opened Results
  import opened Bytes
  import opened Ids
  import opened Values
  import opened Eids
  import opened Facts
  import opened Transactions
  import Builtins

  datatype AttributeType = StringType | IntegerType | DecimalType | IdType | RefType | BooleanType

  /** `From<AttributeType> for ID`. */
  function TypeId(ty: AttributeType): (id: ID)
    ensures ty == RefType || ty == BooleanType ==> id == Builtins.TYPE_BOOLEAN
  {
    match ty
    case StringType => Builtins.TYPE_STRING
    case IntegerType => Builtins.TYPE_INTEGER
    case DecimalType => Builtins.TYPE_DECIMAL
    case IdType => Builtins.TYPE_ID
    case RefType => Builtins.TYPE_REF
    case BooleanType => Builtins.TYPE_BOOLEAN
  }

  /** Two value types share an entity exactly when they are the same type,
      or are `Ref` and `Boolean`. */
  lemma TypeIdCollisions(x: AttributeType, y: AttributeType)
    ensures TypeId(x) == TypeId(y) <==> x == y || ({x, y} == {RefType, BooleanType})
  {
    Builtins.NoDuplicates();
  }

  /** The options of an attribute: its ident, whether it is many-valued,
      its value type, its documentation, whether it is unique, and whether
      it refers to a component. */
  datatype AttributeSchema = AttributeSchema(
    id: ID,
    ident: Option<seq<byte>>,
    many: bool,
    valueType: Option<AttributeType>,
    doc: Option<seq<byte>>,
    unique: bool,
    component: bool)

  /** `AttributeSchema::new`, with the fresh ID it draws as an input. */
  function NewSchema(freshId: ID): (s: AttributeSchema)
    ensures s.id == freshId && Options(s) == 0
  {
    AttributeSchema(freshId, None, false, None, None, false, false)
  }

  /** How many options are set. */
  function Options(s: AttributeSchema): nat
  {
    (if s.ident.Some? then 1 else 0) + (if s.many then 1 else 0) + (if s.valueType.Some? then 1 else 0) +
    (if s.doc.Some? then 1 else 0) + (if s.unique then 1 else 0) + (if s.component then 1 else 0)
  }

  /** `set_id`. */
  function SetId(s: AttributeSchema, id: ID): (r: AttributeSchema)
    ensures r.id == id && r == s.(id := r.id)
  {
    s.(id := id)
  }

  /** `ident`. */
  function WithIdent(s: AttributeSchema, ident: seq<byte>): (r: AttributeSchema)
    ensures r.ident == Some(ident) && r == s.(ident := r.ident)
  {
    s.(ident := Some(ident))
  }

  /** `many`. */
  function Many(s: AttributeSchema): (r: AttributeSchema)
    ensures r.many && r == s.(many := true)
  {
    s.(many := true)
  }

  /** `value_type`. */
  function WithValueType(s: AttributeSchema, ty: AttributeType): (r: AttributeSchema)
    ensures r.valueType == Some(ty) && r == s.(valueType := r.valueType)
  {
    s.(valueType := Some(ty))
  }

  /** `doc`. */
  function WithDoc(s: AttributeSchema, doc: seq<byte>): (r: AttributeSchema)
    ensures r.doc == Some(doc) && r == s.(doc := r.doc)
  {
    s.(doc := Some(doc))
  }

  /** `unique`. */
  function Unique(s: AttributeSchema): (r: AttributeSchema)
    ensures r.unique && r == s.(unique := true)
  {
    s.(unique := true)
  }

  /** `component`: also makes the attribute a reference. */
  function Component(s: AttributeSchema): (r: AttributeSchema)
    ensures r.component && r.valueType == Some(RefType)
    ensures r == s.(component := true, valueType := Some(RefType))
  {
    s.(valueType := Some(RefType), component := true)
  }

  /** The fact `tx` adds for each option, in the order it adds them: the
      attribute naming itself under `ID`, then its ident, cardinality, value
      type, doc, uniqueness and component flag, each only when set. */
  function Candidates(s: AttributeSchema): (c: seq<Option<Fact>>)
    ensures |c| == 7
  {
    var e := Resolved(s.id);
    [Some(Add(e, Resolved(Builtins.DB_ID), Id(s.id))),
     if s.ident.Some? then Some(Add(e, Resolved(Builtins.IDENT), String(s.ident.value))) else None,
     if s.many then Some(Add(e, Resolved(Builtins.CARDINALITY), Id(Builtins.CARDINALITY_MANY))) else None,
     if s.valueType.Some? then Some(Add(e, Resolved(Builtins.VALUE_TYPE), Id(TypeId(s.valueType.value)))) else None,
     if s.doc.Some? then Some(Add(e, Resolved(Builtins.DOC), String(s.doc.value))) else None,
     if s.unique then Some(Add(e, Resolved(Builtins.UNIQUE), Boolean(true))) else None,
     if s.component then Some(Add(e, Resolved(Builtins.IS_COMPONENT), Boolean(true))) else None]
  }

  /** The facts among `c`, in order. */
  function Keep(c: seq<Option<Fact>>): (r: seq<Fact>)
    ensures forall f :: f in r <==> Some(f) in c
    ensures |r| == Kept(c)
  {
    if |c| == 0 then [] else (if c[0].Some? then [c[0].value] else []) + Keep(c[1..])
  }

  /** How many of `c` are facts. */
  function Kept(c: seq<Option<Fact>>): nat
  {
    if |c| == 0 then 0 else (if c[0].Some? then 1 else 0) + Kept(c[1..])
  }

  /** `tx`: the facts of the options that are set, added in order. */
  function SchemaTx(s: AttributeSchema): (tx: Transaction)
  {
    Transaction(Keep(Candidates(s)))
  }

  /** Where each schema attribute's fact comes in `tx`. */
  function Position(a: ID): int
  {
    if a == Builtins.DB_ID then 0
    else if a == Builtins.IDENT then 1
    else if a == Builtins.CARDINALITY then 2
    else if a == Builtins.VALUE_TYPE then 3
    else if a == Builtins.DOC then 4
    else if a == Builtins.UNIQUE then 5
    else if a == Builtins.IS_COMPONENT then 6
    else 7
  }

  /** The position of a fact's attribute, for a fact with a resolved one. */
  function FactPosition(f: Fact): int
  {
    if f.attribute.Resolved? then Position(f.attribute.id) else 7
  }

  /** Keeping the facts of a list keeps their order. */
  lemma {:induction false} KeepOrdered(c: seq<Option<Fact>>)
    requires forall i, j | 0 <= i < j < |c| && c[i].Some? && c[j].Some? :: FactPosition(c[i].value) < FactPosition(c[j].value)
    ensures forall i, j | 0 <= i < j < |Keep(c)| :: FactPosition(Keep(c)[i]) < FactPosition(Keep(c)[j])
  {
    if |c| > 0 {
      var tail := c[1..];
      KeepOrdered(tail);
      if c[0].Some? {
        var r := Keep(c);
        assert r == [c[0].value] + Keep(tail);
        forall j | 0 < j < |r| ensures FactPosition(r[0]) < FactPosition(r[j]) {
          assert r[j] in Keep(tail);
          var k :| 0 <= k < |tail| && tail[k] == Some(r[j]);
          assert c[k + 1] == tail[k];
        }
      }
    }
  }

  /** The count of facts among a list of seven. */
  lemma KeptOfSeven(c: seq<Option<Fact>>)
    requires |c| == 7
    ensures Kept(c) == (if c[0].Some? then 1 else 0) + (if c[1].Some? then 1 else 0) + (if c[2].Some? then 1 else 0) +
      (if c[3].Some? then 1 else 0) + (if c[4].Some? then 1 else 0) + (if c[5].Some? then 1 else 0) + (if c[6].Some? then 1 else 0)
  {
    var c1 := c[1..];
    var c2 := c1[1..];
    var c3 := c2[1..];
    var c4 := c3[1..];
    var c5 := c4[1..];
    var c6 := c5[1..];
    assert c1[0] == c[1] && c2[0] == c[2] && c3[0] == c[3] && c4[0] == c[4] && c5[0] == c[5] && c6[0] == c[6];
    assert c6[1..] == [];
    assert Kept(c6) == (if c[6].Some? then 1 else 0) + Kept(c6[1..]);
    assert Kept(c5) == (if c[5].Some? then 1 else 0) + Kept(c6);
    assert Kept(c4) == (if c[4].Some? then 1 else 0) + Kept(c5);
    assert Kept(c3) == (if c[3].Some? then 1 else 0) + Kept(c4);
    assert Kept(c2) == (if c[2].Some? then 1 else 0) + Kept(c3);
    assert Kept(c1) == (if c[1].Some? then 1 else 0) + Kept(c2);
  }

  /** Each candidate sits at the position of its attribute. */
  lemma CandidatePositions(s: AttributeSchema)
    ensures forall i | 0 <= i < 7 && Candidates(s)[i].Some? :: FactPosition(Candidates(s)[i].value) == i
    ensures forall i | 0 <= i < 7 && Candidates(s)[i].Some? ::
      Candidates(s)[i].value.Add? && Candidates(s)[i].value.entity == Resolved(s.id) && Candidates(s)[i].value.attribute.Resolved?
  {
  }

  /** An `Add` of attribute `a` with value `v` to the schema's attribute. */
  predicate Declares(s: AttributeSchema, a: ID, v: Value)
  {
    Add(Resolved(s.id), Resolved(a), v) in SchemaTx(s).facts
  }

  /** A schema attribute is declared by its own candidate alone. */
  lemma DeclaresAt(s: AttributeSchema, a: ID, v: Value)
    requires Position(a) < 7
    ensures Declares(s, a, v) <==> Candidates(s)[Position(a)] == Some(Add(Resolved(s.id), Resolved(a), v))
  {
    var c := Candidates(s);
    var f := Add(Resolved(s.id), Resolved(a), v);
    CandidatePositions(s);
    if Declares(s, a, v) {
      assert Some(f) in c;
      var i :| 0 <= i < 7 && c[i] == Some(f);
      assert FactPosition(f) == i;
    }
    if c[Position(a)] == Some(f) {
      assert Some(f) in c;
    }
  }

  /** `tx` has one fact more than the options set, the first naming the
      attribute under `ID`. */
  lemma SchemaTxSize(s: AttributeSchema)
    ensures |SchemaTx(s).facts| == 1 + Options(s)
    ensures SchemaTx(s).facts[0] == Add(Resolved(s.id), Resolved(Builtins.DB_ID), Id(s.id))
  {
    var c := Candidates(s);
    KeptOfSeven(c);
    assert Keep(c) == [c[0].value] + Keep(c[1..]);
  }

  /** The facts of `tx` are all `Add`s to the attribute itself, in a fixed
      order of their attributes, so none is repeated. */
  lemma SchemaTxOrder(s: AttributeSchema)
    ensures forall f | f in SchemaTx(s).facts :: f.Add? && f.entity == Resolved(s.id) && f.attribute.Resolved?
    ensures forall i, j | 0 <= i < j < |SchemaTx(s).facts| ::
      FactPosition(SchemaTx(s).facts[i]) < FactPosition(SchemaTx(s).facts[j])
  {
    var c := Candidates(s);
    CandidatePositions(s);
    KeepOrdered(c);
    forall f | f in SchemaTx(s).facts ensures f.Add? && f.entity == Resolved(s.id) && f.attribute.Resolved? {
      assert Some(f) in c;
      var i :| 0 <= i < 7 && c[i] == Some(f);
    }
  }

  /** The value a schema gives each schema attribute, if it sets it. */
  function OptionValue(s: AttributeSchema, a: ID): Option<Value>
  {
    if a == Builtins.DB_ID then Some(Id(s.id))
    else if a == Builtins.IDENT then (if s.ident.Some? then Some(String(s.ident.value)) else None)
    else if a == Builtins.CARDINALITY then (if s.many then Some(Id(Builtins.CARDINALITY_MANY)) else None)
    else if a == Builtins.VALUE_TYPE then (if s.valueType.Some? then Some(Id(TypeId(s.valueType.value))) else None)
    else if a == Builtins.DOC then (if s.doc.Some? then Some(String(s.doc.value)) else None)
    else if a == Builtins.UNIQUE then (if s.unique then Some(Boolean(true)) else None)
    else if a == Builtins.IS_COMPONENT then (if s.component then Some(Boolean(true)) else None)
    else None
  }

  /** The candidate of a schema attribute adds the value the schema sets. */
  lemma CandidateIsOption(s: AttributeSchema, a: ID)
    requires Position(a) < 7
    ensures Candidates(s)[Position(a)] ==
      if OptionValue(s, a).Some? then Some(Add(Resolved(s.id), Resolved(a), OptionValue(s, a).value)) else None
  {
    var c := Candidates(s);
    if a == Builtins.DB_ID {
      assert c[0] == Some(Add(Resolved(s.id), Resolved(a), Id(s.id)));
    } else if a == Builtins.IDENT {
      assert Position(a) == 1;
    } else if a == Builtins.CARDINALITY {
      assert Position(a) == 2;
    } else if a == Builtins.VALUE_TYPE {
      assert Position(a) == 3;
    } else if a == Builtins.DOC {
      assert Position(a) == 4;
    } else if a == Builtins.UNIQUE {
      assert Position(a) == 5;
    } else {
      assert a == Builtins.IS_COMPONENT && Position(a) == 6;
    }
  }

  /** Each schema attribute is declared exactly when the schema sets it,
      with the value it sets; no other attribute is declared. */
  lemma SchemaTxDeclares(s: AttributeSchema, a: ID, v: Value)
    ensures Declares(s, a, v) <==> OptionValue(s, a) == Some(v)
  {
    if Position(a) < 7 {
      DeclaresAt(s, a, v);
      CandidateIsOption(s, a);
    } else {
      CandidatePositions(s);
      forall i | 0 <= i < 7 ensures Candidates(s)[i] != Some(Add(Resolved(s.id), Resolved(a), v)) {
      }
    }
  }

  /** A fresh schema declares nothing but its own ID. */
  lemma NewSchemaTx(freshId: ID)
    ensures SchemaTx(NewSchema(freshId)).facts == [Add(Resolved(freshId), Resolved(Builtins.DB_ID), Id(freshId))]
  {
    SchemaTxSize(NewSchema(freshId));
  }

  /** Two schemas that set an attribute alike declare it alike. */
  lemma DeclaresAgree(s: AttributeSchema, t: AttributeSchema, a: ID, v: Value)
    requires OptionValue(s, a) == OptionValue(t, a)
    ensures Declares(s, a, v) <==> Declares(t, a, v)
  {
    SchemaTxDeclares(s, a, v);
    SchemaTxDeclares(t, a, v);
  }

  /** `ident` changes only what `tx` declares for `IDENT`. */
  lemma WithIdentDeclares(s: AttributeSchema, ident: seq<byte>, a: ID, v: Value)
    ensures Declares(WithIdent(s, ident), a, v) <==>
      if a == Builtins.IDENT then v == String(ident) else Declares(s, a, v)
  {
    if a == Builtins.IDENT {
      SchemaTxDeclares(WithIdent(s, ident), a, v);
    } else {
      DeclaresAgree(s, WithIdent(s, ident), a, v);
    }
  }

  /** `many` changes only what `tx` declares for `CARDINALITY`. */
  lemma ManyDeclares(s: AttributeSchema, a: ID, v: Value)
    ensures Declares(Many(s), a, v) <==>
      if a == Builtins.CARDINALITY then v == Id(Builtins.CARDINALITY_MANY) else Declares(s, a, v)
  {
    if a == Builtins.CARDINALITY {
      SchemaTxDeclares(Many(s), a, v);
    } else {
      DeclaresAgree(s, Many(s), a, v);
    }
  }

  /** `value_type` changes only what `tx` declares for `VALUE_TYPE`. */
  lemma WithValueTypeDeclares(s: AttributeSchema, ty: AttributeType, a: ID, v: Value)
    ensures Declares(WithValueType(s, ty), a, v) <==>
      if a == Builtins.VALUE_TYPE then v == Id(TypeId(ty)) else Declares(s, a, v)
  {
    if a == Builtins.VALUE_TYPE {
      SchemaTxDeclares(WithValueType(s, ty), a, v);
    } else {
      DeclaresAgree(s, WithValueType(s, ty), a, v);
    }
  }

  /** `doc` changes only what `tx` declares for `DOC`. */
  lemma WithDocDeclares(s: AttributeSchema, doc: seq<byte>, a: ID, v: Value)
    ensures Declares(WithDoc(s, doc), a, v) <==>
      if a == Builtins.DOC then v == String(doc) else Declares(s, a, v)
  {
    if a == Builtins.DOC {
      SchemaTxDeclares(WithDoc(s, doc), a, v);
    } else {
      DeclaresAgree(s, WithDoc(s, doc), a, v);
    }
  }

  /** `unique` changes only what `tx` declares for `UNIQUE`. */
  lemma UniqueDeclares(s: AttributeSchema, a: ID, v: Value)
    ensures Declares(Unique(s), a, v) <==>
      if a == Builtins.UNIQUE then v == Boolean(true) else Declares(s, a, v)
  {
    if a == Builtins.UNIQUE {
      SchemaTxDeclares(Unique(s), a, v);
    } else {
      DeclaresAgree(s, Unique(s), a, v);
    }
  }

  /** `component` changes only what `tx` declares for `IS_COMPONENT` and
      `VALUE_TYPE`, which becomes a reference. */
  lemma ComponentDeclares(s: AttributeSchema, a: ID, v: Value)
    ensures Declares(Component(s), a, v) <==>
      if a == Builtins.IS_COMPONENT then v == Boolean(true)
      else if a == Builtins.VALUE_TYPE then v == Id(TypeId(RefType))
      else Declares(s, a, v)
  {
    var t := Component(s);
    if a == Builtins.IS_COMPONENT {
      assert OptionValue(t, a) == Some(Boolean(true));
      SchemaTxDeclares(t, a, v);
    } else if a == Builtins.VALUE_TYPE {
      assert OptionValue(t, a) == Some(Id(TypeId(RefType)));
      SchemaTxDeclares(t, a, v);
    } else {
      assert OptionValue(s, a) == OptionValue(t, a);
      DeclaresAgree(s, t, a, v);
    }
  }
}
