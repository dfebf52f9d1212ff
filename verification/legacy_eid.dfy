/** Entity references of the crate's first revision (`src/types/eid.rs`) and
    the builtin lookup by ident it starts with (`builtin_by_ident` of
    `src/builtin_idents.rs`). An ident that is not builtin is looked up
    among the datoms `datoms(VAET)` yields; a unique value among those
    `datoms_for_attribute` yields. */
module LegacyEids {
  import opened Results
  import opened Bytes
  import opened Ids
  import opened Values
  import opened Datoms
  import opened Builtins
  import opened OldValues
  import opened LegacySerial

  /** `EID` of the first revision: there is no interned ident. */
  datatype OldEID =
    | Resolved(id: ID)
    | Ident(name: seq<byte>)
    | Unique(attribute: OldEID, value: OldValue)

  // ---------------------------------------------------------------------------
  // builtin_by_ident
  // ---------------------------------------------------------------------------

  /** `order` visits the builtin table's keys, every one of them: the order
      the table's `HashMap` happens to yield its rows in. */
  predicate TableOrder(order: seq<ID>)
  {
    (forall i | 0 <= i < |order| :: Entity(order[i]).Some?) &&
    (forall k | Entity(k).Some? :: k in order)
  }

  /** `builtin_by_ident`: the first row, in the table's iteration order, whose
      ident is `s`, and that row's `ID` attribute when it holds an ID. */
  function BuiltinByIdentIn(order: seq<ID>, s: seq<byte>): (r: Option<ID>)
    requires TableOrder(order)
    ensures r.Some? ==> Entity(r.value).Some? && Entity(r.value).value.ident == s
  {
    var found := FindIdent(order, s);
    if found.None? then None
    else
      RowsNameThemselves(found.value);
      match Attribute(Entity(found.value).value, DB_ID)
      case Some(Id(id)) => Some(id)
      case _ => None
  }

  /** The idents of the table are distinct, so whatever order the map yields
      its rows in, the lookup gives the same answer: the one
      `BUILTIN_ENTITIES_BY_IDENT` gives today. */
  lemma AnyOrderSameAnswer(order: seq<ID>, s: seq<byte>)
    requires TableOrder(order)
    ensures BuiltinByIdentIn(order, s) == BuiltinByIdent(s)
  {
    var found := FindIdent(order, s);
    if found.Some? {
      BuiltinByIdentExact(s, found.value);
      RowsNameThemselves(found.value);
    }
  }

  // ---------------------------------------------------------------------------
  // Resolution
  // ---------------------------------------------------------------------------

  /** What resolution reads from a sled database: the datoms `datoms(VAET)`
      yields and those of the AVET index, which `datoms_for_attribute`
      narrows to one attribute; each in key order. */
  datatype View = View(vaet: seq<OldDatom>, avet: seq<OldDatom>)

  /** `datoms_for_attribute(a)`: the AVET datoms of attribute `a`. */
  function ForAttribute(view: View, a: ID): (r: seq<OldDatom>)
    ensures forall d :: d in r <==> d in view.avet && d.attribute == a
    decreases |view.avet|
  {
    if |view.avet| == 0 then []
    else
      var rest := ForAttribute(View(view.vaet, view.avet[1..]), a);
      assert forall d :: d in view.avet <==> d == view.avet[0] || d in view.avet[1..];
      if view.avet[0].attribute == a then [view.avet[0]] + rest else rest
  }

  /** The datom naming ident `s`: its attribute is `IDENT` and its value the
      string `s` (compared with the first revision's equality). */
  predicate NamesIdent(d: OldDatom, s: seq<byte>)
  {
    d.attribute == IDENT && OldEq(d.value, Plain(String(s)))
  }

  /** `find` over datoms for the one naming an ident: the entity of the
      first datom that does. */
  function FirstNaming(ds: seq<OldDatom>, s: seq<byte>): (r: Option<ID>)
    ensures r.None? <==> forall i | 0 <= i < |ds| :: !NamesIdent(ds[i], s)
    ensures r.Some? ==> exists i | 0 <= i < |ds| :: NamesIdent(ds[i], s) && ds[i].entity == r.value &&
                                                 forall j | 0 <= j < i :: !NamesIdent(ds[j], s)
  {
    if |ds| == 0 then None
    else if NamesIdent(ds[0], s) then Some(ds[0].entity)
    else
      var r := FirstNaming(ds[1..], s);
      assert forall i | 0 < i < |ds| :: ds[i] == ds[1..][i - 1];
      r
  }

  /** `find` over datoms for one with the value `v`: the entity of the first
      datom whose value equals `v`. */
  function FirstWithValue(ds: seq<OldDatom>, v: OldValue): (r: Option<ID>)
    ensures r.None? <==> forall i | 0 <= i < |ds| :: !OldEq(ds[i].value, v)
    ensures r.Some? ==> exists i | 0 <= i < |ds| :: OldEq(ds[i].value, v) && ds[i].entity == r.value &&
                                                 forall j | 0 <= j < i :: !OldEq(ds[j].value, v)
  {
    if |ds| == 0 then None
    else if OldEq(ds[0].value, v) then Some(ds[0].entity)
    else
      var r := FirstWithValue(ds[1..], v);
      assert forall i | 0 < i < |ds| :: ds[i] == ds[1..][i - 1];
      r
  }

  /** The failures of resolution: `QueryError::UnresolvedEID`, and the
      panic of `avet_attribute_range` for the largest attribute ID. */
  datatype ResolveError = UnresolvedEID(eid: OldEID) | Panicked

  /** `EID::resolve` as written. A resolved ID is itself. An ident is a
      builtin's, or else the entity of the first VAET datom naming it. A
      unique reference resolves its attribute, then takes the entity of the
      first datom of that attribute holding the value. */
  function ResolveAsWritten(order: seq<ID>, view: View, eid: OldEID): (r: Result<ID, ResolveError>)
    requires TableOrder(order)
    decreases eid
  {
    match eid
    case Resolved(id) => Ok(id)
    case Ident(s) =>
      var builtin := BuiltinByIdentIn(order, s);
      if builtin.Some? then Ok(builtin.value)
      else
        var found := FirstNaming(view.vaet, s);
        if found.Some? then Ok(found.value) else Err(UnresolvedEID(eid))
    case Unique(attribute, v) =>
      var a :- ResolveAsWritten(order, view, attribute);
      if a == ID_LIMIT - 1 then Err(Panicked)
      else
        var found := FirstWithValue(ForAttribute(view, a), v);
        if found.Some? then Ok(found.value) else Err(UnresolvedEID(eid))
  }

  /** `EID::resolve` with the ident lookup reading the AVET datoms of
      `IDENT`, as today's code does; `IDENT` is unique, so its datoms are
      written to AVET. Resolved and unique references are as written. */
  function Resolve(order: seq<ID>, view: View, eid: OldEID): (r: Result<ID, ResolveError>)
    requires TableOrder(order)
    decreases eid
  {
    match eid
    case Resolved(id) => Ok(id)
    case Ident(s) =>
      var builtin := BuiltinByIdentIn(order, s);
      if builtin.Some? then Ok(builtin.value)
      else
        var found := FirstNaming(ForAttribute(view, IDENT), s);
        if found.Some? then Ok(found.value) else Err(UnresolvedEID(eid))
    case Unique(attribute, v) =>
      var a :- Resolve(order, view, attribute);
      if a == ID_LIMIT - 1 then Err(Panicked)
      else
        var found := FirstWithValue(ForAttribute(view, a), v);
        if found.Some? then Ok(found.value) else Err(UnresolvedEID(eid))
  }

  /** What a resolved ident denotes, as written: a builtin's ID, or the
      entity of a VAET datom naming it, the first such; and an unresolved
      ident is neither a builtin's nor named by any VAET datom. */
  lemma ResolveIdentAsWrittenMeans(order: seq<ID>, view: View, s: seq<byte>)
    requires TableOrder(order)
    ensures var r := ResolveAsWritten(order, view, Ident(s));
      (r.Ok? <==> BuiltinByIdent(s).Some? || exists i | 0 <= i < |view.vaet| :: NamesIdent(view.vaet[i], s)) &&
      (r.Ok? && BuiltinByIdent(s).None? ==>
         exists i | 0 <= i < |view.vaet| :: NamesIdent(view.vaet[i], s) && view.vaet[i].entity == r.value) &&
      (r.Err? ==> r.error == UnresolvedEID(Ident(s)))
  {
    AnyOrderSameAnswer(order, s);
  }

  /** What a resolved ident denotes once corrected: a builtin's ID, or the
      entity of an AVET datom naming it. */
  lemma ResolveIdentMeans(order: seq<ID>, view: View, s: seq<byte>)
    requires TableOrder(order)
    ensures var r := Resolve(order, view, Ident(s));
      (r.Ok? <==> BuiltinByIdent(s).Some? || exists d | d in view.avet :: NamesIdent(d, s)) &&
      (r.Ok? && BuiltinByIdent(s).None? ==> exists d | d in view.avet :: NamesIdent(d, s) && d.entity == r.value) &&
      (r.Err? ==> r.error == UnresolvedEID(Ident(s)))
  {
    AnyOrderSameAnswer(order, s);
    NamingInAvet(view, s);
  }

  /** The search for the datom naming an ident, among the AVET datoms of
      `IDENT`, finds one exactly when the AVET datoms hold one. */
  lemma NamingInAvet(view: View, s: seq<byte>)
    ensures var found := FirstNaming(ForAttribute(view, IDENT), s);
      (found.Some? <==> exists d | d in view.avet :: NamesIdent(d, s)) &&
      (found.Some? ==> exists d | d in view.avet :: NamesIdent(d, s) && d.entity == found.value)
  {
    var ds := ForAttribute(view, IDENT);
    var found := FirstNaming(ds, s);
    if found.Some? {
      var i :| 0 <= i < |ds| && NamesIdent(ds[i], s) && ds[i].entity == found.value;
      assert ds[i] in view.avet;
    }
    if exists d | d in view.avet :: NamesIdent(d, s) {
      var d :| d in view.avet && NamesIdent(d, s);
      assert d in ds;
      var i :| 0 <= i < |ds| && ds[i] == d;
    }
  }

  /** A unique reference resolves, once its attribute does, to the entity of
      a datom of that attribute holding an equal value, and fails exactly
      when there is none. */
  lemma ResolveUniqueMeans(order: seq<ID>, view: View, attribute: OldEID, v: OldValue, a: ID)
    requires TableOrder(order)
    requires Resolve(order, view, attribute) == Ok(a) && a < ID_LIMIT - 1
    ensures var r := Resolve(order, view, Unique(attribute, v));
      (r.Ok? <==> exists d | d in view.avet :: d.attribute == a && OldEq(d.value, v)) &&
      (r.Ok? ==> exists d | d in view.avet :: d.attribute == a && OldEq(d.value, v) && d.entity == r.value)
  {
    var found := FirstWithValue(ForAttribute(view, a), v);
    assert Resolve(order, view, Unique(attribute, v)) == if found.Some? then Ok(found.value) else Err(UnresolvedEID(Unique(attribute, v)));
    ValueInAvet(view, a, v);
  }

  /** The search for a datom of attribute `a` holding `v` finds one exactly
      when the AVET datoms hold one. */
  lemma ValueInAvet(view: View, a: ID, v: OldValue)
    ensures var found := FirstWithValue(ForAttribute(view, a), v);
      (found.Some? <==> exists d | d in view.avet :: d.attribute == a && OldEq(d.value, v)) &&
      (found.Some? ==> exists d | d in view.avet :: d.attribute == a && OldEq(d.value, v) && d.entity == found.value)
  {
    if FirstWithValue(ForAttribute(view, a), v).Some? {
      ValueFound(view, a, v);
    }
    if exists d | d in view.avet :: d.attribute == a && OldEq(d.value, v) {
      var d :| d in view.avet && d.attribute == a && OldEq(d.value, v);
      ValueNotMissed(view, a, v, d);
    }
  }

  /** What the search finds is a datom of `a` holding `v` ... */
  lemma ValueFound(view: View, a: ID, v: OldValue)
    requires FirstWithValue(ForAttribute(view, a), v).Some?
    ensures exists d | d in view.avet :: d.attribute == a && OldEq(d.value, v) && d.entity == FirstWithValue(ForAttribute(view, a), v).value
  {
    var ds := ForAttribute(view, a);
    var i :| 0 <= i < |ds| && OldEq(ds[i].value, v) && ds[i].entity == FirstWithValue(ds, v).value;
    assert ds[i] in view.avet;
  }

  /** ... and it misses none. */
  lemma ValueNotMissed(view: View, a: ID, v: OldValue, d: OldDatom)
    requires d in view.avet && d.attribute == a && OldEq(d.value, v)
    ensures FirstWithValue(ForAttribute(view, a), v).Some?
  {
    var ds := ForAttribute(view, a);
    assert d in ds;
    var i :| 0 <= i < |ds| && ds[i] == d;
  }

  /** The two resolvers differ only on idents that are not builtin. */
  lemma ResolversAgreeOffIdents(order: seq<ID>, view: View, eid: OldEID)
    requires TableOrder(order)
    requires forall s | Mentions(eid, s) :: BuiltinByIdent(s).Some?
    ensures ResolveAsWritten(order, view, eid) == Resolve(order, view, eid)
  {
    match eid
    case Resolved(_) =>
    case Ident(s) => AnyOrderSameAnswer(order, s);
    case Unique(attribute, _) => ResolversAgreeOffIdents(order, view, attribute);
  }

  /** The idents `eid` mentions, its own or its attribute's. */
  predicate Mentions(eid: OldEID, s: seq<byte>)
  {
    match eid
    case Resolved(_) => false
    case Ident(name) => name == s
    case Unique(attribute, _) => Mentions(attribute, s)
  }

  /** As written, an ident that is not builtin stays unresolved when no VAET
      datom is about `IDENT`. */
  lemma IdentMissedAsWritten(order: seq<ID>, view: View, s: seq<byte>)
    requires TableOrder(order)
    requires forall d | d in view.vaet :: d.attribute != IDENT
    requires BuiltinByIdent(s).None?
    ensures ResolveAsWritten(order, view, Ident(s)) == Err(UnresolvedEID(Ident(s)))
  {
    ResolveIdentAsWrittenMeans(order, view, s);
  }
}
