/**
 * The translation record as the data-connection layer sees it: the fields of
 * the `Translation` schema plus the two identity properties `_id` and `id`
 * that the code tests, and the three shapes a request parameter can take.
 */
module Translations {
  import opened Wrappers

  /** A store-assigned document identity (a Mongo ObjectId), kept opaque. */
  type Id = string

  /** A point in time, in milliseconds, as `new Date()` would give it. */
  type Time = int

  /** What a JavaScript identity property holds, as far as `typeof x !== "undefined"`
      and `a || b` can tell: `undefined`, a defined but falsy value (`null`, `""`),
      or a truthy identity. */
  datatype Key = Undefined | Falsy | Truthy(id: Id)

  /** JavaScript's `a || b` on two identity properties. */
  function Or(a: Key, b: Key): (r: Key)
    ensures r.Truthy? <==> a.Truthy? || b.Truthy?
    ensures a.Truthy? ==> r == a
    ensures !a.Truthy? ==> r == b
  {
    if a.Truthy? then a else b
  }

  /** A date property: absent, still the string a client sent (JSON has no
      dates), `new Date(text)` of such a string, or a date taken from the clock. */
  datatype Stamp = NoDate | DateText(text: string) | ParsedDate(text: string) | At(time: Time)

  datatype Origin = Origin(main: string, short: Option<string>)

  /** One translation payload. `docId` is the `_id` property, `id` the alternate
      `id` property; `kind` is the schema's `type` field. */
  datatype Translation = Translation(
    docId: Key,
    id: Key,
    origin: Origin,
    kind: string,
    translation: string,
    creationDate: Stamp,
    editDate: Stamp)

  /** The shape of a parameter, as `instanceof Array` and `typeof x === "object"`
      tell them apart. */
  datatype Input = ArrayInput(items: seq<Translation>) | ObjectInput(item: Translation) | OtherInput

  /** `tr._id || tr.id`, the identity the classifier and the single update use. */
  function IdentityOf(t: Translation): Key {
    Or(t.docId, t.id)
  }

  /** `typeof (tr._id || tr.id) !== "undefined"`: the classifier's identity test.
      A falsy `_id` falls through to `id`, so `{_id: null}` alone fails it. */
  predicate HasIdentity(t: Translation)
    ensures HasIdentity(t) <==> t.docId.Truthy? || t.id != Undefined
  {
    IdentityOf(t) != Undefined
  }

  /** The record with its two dates replaced, everything else equal. */
  predicate SameContent(a: Translation, b: Translation) {
    a.docId == b.docId && a.id == b.id && a.origin == b.origin
    && a.kind == b.kind && a.translation == b.translation
  }
}
