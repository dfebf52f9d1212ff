/** The builtin entities (`builtin_idents`): the schema attributes every
    database knows without storing them, and the enumeration entities their
    values refer to. Both revisions of the crate use the same IDs and the
    same table. */
module Builtins {
  import opened Results
  import opened Bytes
  import opened Ids
  import opened Values

  // ---------------------------------------------------------------------------
  // The builtin IDs
  // ---------------------------------------------------------------------------

  /** `ID`: an entity's own ID, a virtual attribute that is never stored. */
  const DB_ID: ID := 329992551406372030633500533120122732713
  const IDENT: ID := 265682209113858765770461024079827500234
  const CARDINALITY: ID := 110064945635332807503383834157761461043
  const VALUE_TYPE: ID := 276059213908560386420175049892299151374
  const DOC: ID := 303289866496710859530474533904741988829
  const UNIQUE: ID := 307615836394596470679724073561969695989
  const IS_COMPONENT: ID := 308724514559417715856375983930347810391
  const CARDINALITY_ONE: ID := 143444949937465711736574828873158396909
  const CARDINALITY_MANY: ID := 11338831660433813835424721536043447369
  const TYPE_STRING: ID := 301439516182801820546961599694687577507
  const TYPE_INTEGER: ID := 183876393307651966214416059730593095
  const TYPE_DECIMAL: ID := 297077785792417755741249562058415972414
  const TYPE_ID: ID := 339681506578292470250558610134765439055
  /** `TYPE_REF` and `TYPE_BOOLEAN` are written with the same number. */
  const TYPE_REF: ID := 149893903729185565330222631892178876560
  const TYPE_BOOLEAN: ID := 149893903729185565330222631892178876560

  /** The IDs the `no_duplicates` unit test lists. */
  const LISTED: seq<ID> := [CARDINALITY, CARDINALITY_MANY, CARDINALITY_ONE, DOC, IDENT,
                            IS_COMPONENT, TYPE_DECIMAL, TYPE_ID, TYPE_INTEGER, TYPE_REF,
                            TYPE_STRING, UNIQUE, VALUE_TYPE]

  // ---------------------------------------------------------------------------
  // The table
  // ---------------------------------------------------------------------------

  /** The data behind one builtin entity (`BuiltinEntity`), by the
      attributes the table uses: every entity has its ID and an ident; the
      schema attributes also have a value type and a cardinality, and one of
      them a uniqueness flag. */
  datatype BuiltinEntity = BuiltinEntity(id: ID, ident: seq<byte>, valueType: Option<ID>,
                                         cardinality: Option<ID>, unique: Option<bool>)

  /** `builtin.get(&attribute)`: the value an entity's row holds for an
      attribute. */
  function Attribute(e: BuiltinEntity, a: ID): (r: Option<Value>)
    ensures a == DB_ID ==> r == Some(Id(e.id))
    ensures a !in {DB_ID, IDENT, VALUE_TYPE, CARDINALITY, UNIQUE} ==> r.None?
  {
    if a == DB_ID then Some(Id(e.id))
    else if a == IDENT then Some(String(e.ident))
    else if a == VALUE_TYPE && e.valueType.Some? then Some(Id(e.valueType.value))
    else if a == CARDINALITY && e.cardinality.Some? then Some(Id(e.cardinality.value))
    else if a == UNIQUE && e.unique.Some? then Some(Boolean(e.unique.value))
    else None
  }

  /** A row for one of the seven schema attributes. */
  function SchemaRow(id: ID, ident: string, valueType: ID): BuiltinEntity
  {
    BuiltinEntity(id, Ascii(ident), Some(valueType), Some(CARDINALITY_ONE), None)
  }

  /** A row for an enumeration entity, which has only its ID and ident. */
  function NamedRow(id: ID, ident: string): BuiltinEntity
  {
    BuiltinEntity(id, Ascii(ident), None, None, None)
  }

  /** `BUILTIN_ENTITIES.get(k)`. The source inserts the rows one by one into
      a map, so a later row replaces an earlier one with the same key; the
      keys are therefore compared here from the last insert back. The
      `TYPE_REF` row is shadowed by the `TYPE_BOOLEAN` row inserted after it. */
  function Entity(k: ID): (r: Option<BuiltinEntity>)
    ensures r.Some? ==> r.value.id == k
  {
    if k == TYPE_BOOLEAN then Some(NamedRow(TYPE_BOOLEAN, "db.type/boolean"))
    else if k == TYPE_REF then Some(NamedRow(TYPE_REF, "db.type/ref"))
    else if k == TYPE_ID then Some(NamedRow(TYPE_ID, "db.type/id"))
    else if k == TYPE_DECIMAL then Some(NamedRow(TYPE_DECIMAL, "db.type/decimal"))
    else if k == TYPE_INTEGER then Some(NamedRow(TYPE_INTEGER, "db.type/integer"))
    else if k == TYPE_STRING then Some(NamedRow(TYPE_STRING, "db.type/string"))
    else if k == CARDINALITY_MANY then Some(NamedRow(CARDINALITY_MANY, "db.cardinality/many"))
    else if k == CARDINALITY_ONE then Some(NamedRow(CARDINALITY_ONE, "db.cardinality/one"))
    else if k == IS_COMPONENT then Some(SchemaRow(IS_COMPONENT, "db/is-component", TYPE_BOOLEAN))
    else if k == UNIQUE then Some(SchemaRow(UNIQUE, "db/unique", TYPE_BOOLEAN))
    else if k == DOC then Some(SchemaRow(DOC, "db/doc", TYPE_STRING))
    else if k == VALUE_TYPE then Some(SchemaRow(VALUE_TYPE, "db/value-type", TYPE_REF))
    else if k == CARDINALITY then Some(SchemaRow(CARDINALITY, "db/cardinality", TYPE_REF))
    else if k == IDENT then Some(SchemaRow(IDENT, "db/ident", TYPE_STRING).(unique := Some(true)))
    else if k == DB_ID then Some(SchemaRow(DB_ID, "db/id", TYPE_ID))
    else None
  }

  /** `BUILTIN_ENTITIES.get(e).and_then(|row| row.get(a))`: the builtin value
      of attribute `a` on entity `e`, if the table has one. */
  function BuiltinValue(e: ID, a: ID): (r: Option<Value>)
    ensures r.Some? ==> Entity(e).Some? && Attribute(Entity(e).value, a) == r
  {
    if Entity(e).None? then None else Attribute(Entity(e).value, a)
  }

  /** The keys of the table, in the order a lookup by ident visits them. */
  const ENTITY_KEYS: seq<ID> := [DB_ID, IDENT, CARDINALITY, VALUE_TYPE, DOC, UNIQUE, IS_COMPONENT,
                                 CARDINALITY_ONE, CARDINALITY_MANY, TYPE_STRING, TYPE_INTEGER,
                                 TYPE_DECIMAL, TYPE_ID, TYPE_BOOLEAN]

  /** Looking a string up among the idents of `keys`, in order. */
  function FindIdent(keys: seq<ID>, s: seq<byte>): (r: Option<ID>)
    requires forall i | 0 <= i < |keys| :: Entity(keys[i]).Some?
    ensures r.Some? ==> r.value in keys && Entity(r.value).Some? && Entity(r.value).value.ident == s
    ensures r.None? ==> forall i | 0 <= i < |keys| :: Entity(keys[i]).value.ident != s
  {
    if |keys| == 0 then None
    else if Entity(keys[0]).value.ident == s then Some(keys[0])
    else FindIdent(keys[1..], s)
  }

  /** `BUILTIN_ENTITIES_BY_IDENT` followed by reading the entity's `ID`
      attribute (the first step of `EID::resolve` for an ident), and the
      older crate's `builtin_by_ident`: the builtin entity whose ident is
      `s`, if any. */
  function BuiltinByIdent(s: seq<byte>): (r: Option<ID>)
    ensures r.Some? <==> exists k :: Entity(k).Some? && Entity(k).value.ident == s
    ensures r.Some? ==> Entity(r.value).Some? && Entity(r.value).value.ident == s
  {
    KeysCover();
    var found := FindIdent(ENTITY_KEYS, s);
    if found.None? then None
    else
      match Attribute(Entity(found.value).value, DB_ID)
      case Some(Id(id)) => Some(id)
      case _ => None
  }

  // ---------------------------------------------------------------------------
  // What the table promises
  // ---------------------------------------------------------------------------

  /** The lookup order visits exactly the table's keys: fourteen distinct
      IDs, since fifteen constants name them and `TYPE_REF` is
      `TYPE_BOOLEAN`. */
  lemma KeysCover()
    ensures |ENTITY_KEYS| == 14
    ensures forall i, j | 0 <= i < j < |ENTITY_KEYS| :: ENTITY_KEYS[i] != ENTITY_KEYS[j]
    ensures forall i | 0 <= i < |ENTITY_KEYS| :: Entity(ENTITY_KEYS[i]).Some?
    ensures forall k | Entity(k).Some? :: k in ENTITY_KEYS
  {
  }

  /** The thirteen IDs of the `no_duplicates` test are pairwise distinct. */
  lemma NoDuplicates()
    ensures forall i, j | 0 <= i < j < |LISTED| :: LISTED[i] != LISTED[j]
  {
  }

  /** `TYPE_REF` is `TYPE_BOOLEAN`, so the table has one row for both and its
      ident is the later one, "db.type/boolean". */
  lemma TypeRefIsTypeBoolean()
    ensures TYPE_REF == TYPE_BOOLEAN
    ensures Entity(TYPE_REF) == Some(NamedRow(TYPE_BOOLEAN, "db.type/boolean"))
  {
  }

  /** Every row maps the `ID` attribute to its own key. */
  lemma RowsNameThemselves(k: ID)
    requires Entity(k).Some?
    ensures BuiltinValue(k, DB_ID) == Some(Id(k))
  {
  }

  /** The seven schema attributes all have cardinality one; `IDENT` is the
      only entity with a `UNIQUE` entry, and it is `true`; `CARDINALITY` and
      `VALUE_TYPE` are typed as references. */
  lemma SchemaAttributes(k: ID)
    ensures k in {DB_ID, IDENT, CARDINALITY, VALUE_TYPE, DOC, UNIQUE, IS_COMPONENT} ==>
      BuiltinValue(k, CARDINALITY) == Some(Id(CARDINALITY_ONE))
    ensures BuiltinValue(k, UNIQUE).Some? <==> k == IDENT
    ensures BuiltinValue(IDENT, UNIQUE) == Some(Boolean(true))
    ensures BuiltinValue(CARDINALITY, VALUE_TYPE) == Some(Id(TYPE_REF))
    ensures BuiltinValue(VALUE_TYPE, VALUE_TYPE) == Some(Id(TYPE_REF))
  {
  }

  /** The length of a string and its ninth byte. */
  function Fingerprint(s: seq<byte>): (int, int)
  {
    (|s|, if |s| > 8 then s[8] else -1)
  }

  /** Which builtin entity, if any, has an ident with the given fingerprint. */
  function KeyOfFingerprint(f: (int, int)): Option<ID>
  {
    if f == (15, 98) then Some(TYPE_BOOLEAN) else if f == (10, 105) then Some(TYPE_ID)
    else if f == (15, 100) then Some(TYPE_DECIMAL) else if f == (15, 105) then Some(TYPE_INTEGER)
    else if f == (14, 115) then Some(TYPE_STRING) else if f == (19, 110) then Some(CARDINALITY_MANY)
    else if f == (18, 110) then Some(CARDINALITY_ONE) else if f == (15, 109) then Some(IS_COMPONENT)
    else if f == (9, 101) then Some(UNIQUE) else if f == (6, -1) then Some(DOC)
    else if f == (13, 45) then Some(VALUE_TYPE) else if f == (14, 110) then Some(CARDINALITY)
    else if f == (8, -1) then Some(IDENT) else if f == (5, -1) then Some(DB_ID)
    else None
  }

  /** The fingerprint of a builtin ident determines the entity, so the
      fourteen idents are told apart by length and ninth byte. */
  lemma FingerprintOfIdent(k: ID)
    requires Entity(k).Some?
    ensures KeyOfFingerprint(Fingerprint(Entity(k).value.ident)) == Some(k)
  {
  }

  /** No two builtin entities share an ident, so a lookup by ident has at
      most one answer whatever order the table is visited in. */
  lemma IdentsDistinct(j: ID, k: ID)
    requires Entity(j).Some? && Entity(k).Some?
    requires Entity(j).value.ident == Entity(k).value.ident
    ensures j == k
  {
    FingerprintOfIdent(j);
    FingerprintOfIdent(k);
  }

  /** The ident lookup answers with the entity carrying that ident, and only
      with it. */
  lemma BuiltinByIdentExact(s: seq<byte>, k: ID)
    ensures BuiltinByIdent(s) == Some(k) <==> Entity(k).Some? && Entity(k).value.ident == s
  {
    if Entity(k).Some? && Entity(k).value.ident == s {
      IdentsDistinct(k, BuiltinByIdent(s).value);
    }
  }

  /** A string whose fingerprint is no builtin ident's is not an ident. */
  lemma NotAnIdent(s: seq<byte>)
    requires KeyOfFingerprint(Fingerprint(s)).None?
    ensures BuiltinByIdent(s).None?
  {
    if BuiltinByIdent(s).Some? {
      FingerprintOfIdent(BuiltinByIdent(s).value);
    }
  }

  /** Looking up a builtin entity's own ident finds it: "db/id" gives `ID`,
      "db/ident" gives `IDENT`, "db/value-type" gives `VALUE_TYPE`, and so on
      for every row. */
  lemma IdentLookup(k: ID)
    requires Entity(k).Some?
    ensures BuiltinByIdent(Entity(k).value.ident) == Some(k)
  {
    BuiltinByIdentExact(Entity(k).value.ident, k);
  }

  /** Strings that are not idents of the table: "db.type/ref", whose row was
      replaced, and the documentation's example of a non-ident. */
  lemma NonIdentVectors()
    ensures BuiltinByIdent(Ascii("db.type/ref")) == None
    ensures BuiltinByIdent(Ascii("not a built-in ident")) == None
  {
    NotAnIdent(Ascii("db.type/ref"));
    NotAnIdent(Ascii("not a built-in ident"));
  }

  /** The builtin `ID` attribute's 16 bytes, as `Value::bytes` writes them
      after the tag. */
  lemma DbIdBytes()
    ensures IdBytes(DB_ID) == [248, 66, 64, 237, 25, 19, 74, 89, 129, 129, 207, 7, 40, 63, 192, 169]
  {
    Pow256Widths();
    assert BE(248, 1) == [248];
    assert BE(63554, 2) == [248, 66];
    assert BE(16269888, 3) == [248, 66, 64];
    assert BE(4165091565, 4) == [248, 66, 64, 237];
    assert BE(1066263440665, 5) == [248, 66, 64, 237, 25];
    assert BE(272963440810259, 6) == [248, 66, 64, 237, 25, 19];
    assert BE(69878640847426378, 7) == [248, 66, 64, 237, 25, 19, 74];
    assert BE(17888932056941152857, 8) == [248, 66, 64, 237, 25, 19, 74, 89];
    assert BE(4579566606576935131521, 9) == [248, 66, 64, 237, 25, 19, 74, 89, 129];
    assert BE(1172369051283695393669505, 10) == [248, 66, 64, 237, 25, 19, 74, 89, 129, 129];
    assert BE(300126477128626020779393487, 11) == [248, 66, 64, 237, 25, 19, 74, 89, 129, 129, 207];
    assert BE(76832378144928261319524732679, 12) == [248, 66, 64, 237, 25, 19, 74, 89, 129, 129, 207, 7];
    assert BE(19669088805101634897798331565864, 13) == [248, 66, 64, 237, 25, 19, 74, 89, 129, 129, 207, 7, 40];
    assert BE(5035286734106018533836372880861247, 14) == [248, 66, 64, 237, 25, 19, 74, 89, 129, 129, 207, 7, 40, 63];
    assert BE(1289033403931140744662111457500479424, 15) == [248, 66, 64, 237, 25, 19, 74, 89, 129, 129, 207, 7, 40, 63, 192];
    assert BE(329992551406372030633500533120122732713, 16) == [248, 66, 64, 237, 25, 19, 74, 89, 129, 129, 207, 7, 40, 63, 192, 169];
  }
}
