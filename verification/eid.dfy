/** Entity references that still have to be resolved against a database
    (`EID`). `EID::unique(e, v)` is the constructor `Unique(e, v)`, and the
    `From` conversions from an ID, an owned string and a static string are
    the constructors `Resolved`, `Ident` and `InternedIdent`. Ident strings
    are held as their UTF-8 bytes. */
module Eids {
  import opened Bytes
  import opened Ids
  import opened Values

  datatype EID =
    | Resolved(id: ID)
    | Ident(name: seq<byte>)
    | InternedIdent(name: seq<byte>)
    | Unique(attribute: EID, value: Value)
}
