/** User records as the service sees them: untyped JSON objects, keyed by field
    name. Only the parts of JavaScript object semantics that the service relies
    on are modelled: field lookup, the `id` comparison and spread-merge. */
module Records {

  /** A JSON field value. There is no constructor for nested objects or
      arrays: the service never looks inside them. */
  datatype Value = Num(n: int) | Str(s: string) | Bool(b: bool) | Null

  /** A user record (`any` in the service): field name to value. */
  type Record = map<string, Value>

  /** The field that identifies a record. */
  const IdKey: string := "id"

  /** `u.id === id` for a numeric `id`: the record has an `id` field and it is
      that number. A missing field (`undefined`) or a string id never matches. */
  function HasId(u: Record, id: int): (b: bool)
    ensures IdKey !in u ==> !b
    ensures IdKey in u && !u[IdKey].Num? ==> !b
    ensures IdKey in u && u[IdKey] == Num(id) ==> b
    ensures IdKey in u && u[IdKey].Num? && u[IdKey].n != id ==> !b
  {
    IdKey in u && u[IdKey] == Num(id)
  }

  /** `{ ...a, ...b }`: every field of either object, a field present in both
      taking its value from `b`. */
  function Spread(a: Record, b: Record): (r: Record)
    ensures r.Keys == a.Keys + b.Keys
    ensures forall k :: k in b ==> r[k] == b[k]
    ensures forall k :: k in a && k !in b ==> r[k] == a[k]
  {
    a + b
  }

  /** No two positions of the list hold records with the same numeric id. */
  ghost predicate UniqueIds(s: seq<Record>) {
    forall i, j, id :: 0 <= i < |s| && 0 <= j < |s| && HasId(s[i], id) && HasId(s[j], id) ==> i == j
  }
}
