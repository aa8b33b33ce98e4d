/**
 * The two client messages about saving a specification's body: the request to save it and
 * the notice that it was saved. Each carries a fixed type discriminator naming it on the
 * wire. A saved notice is identified by the specification's id and revision: its time
 * stamp plays no part in equality or in the hash code.
 */
module Messages {
  import opened Wrappers

  /** The specification body sent for saving; its structure is not part of this model. */
  type SpecificationBody = string

  datatype ClientMessage =
    | SaveSpecBody(messageType: string, id: Option<string>, revision: Option<string>, spec: Option<SpecificationBody>)
    | SpecBodySaved(messageType: string, id: Option<string>, revision: Option<string>, time: string)

  const SaveSpecBodyType := "save-spec-body"
  const SpecBodySavedType := "spec-body-saved"

  /** A new save request: its discriminator set, its other fields not yet given. */
  function NewSaveSpecBody(): (m: ClientMessage)
    ensures m.SaveSpecBody? && m.messageType == "save-spec-body"
    ensures m.id.None? && m.revision.None? && m.spec.None?
  {
    SaveSpecBody(SaveSpecBodyType, None, None, None)
  }

  /** A new saved notice, stamped with the current time `now` (short time format). */
  function NewSpecBodySaved(now: string): (m: ClientMessage)
    ensures m.SpecBodySaved? && m.messageType == "spec-body-saved"
    ensures m.id.None? && m.revision.None? && m.time == now
  {
    SpecBodySaved(SpecBodySavedType, None, None, now)
  }

  /** Equals of a saved notice against any object (None is null): true exactly for a saved
      notice with the same id and revision. */
  function SavedEquals(m: ClientMessage, obj: Option<ClientMessage>): (r: bool)
    requires m.SpecBodySaved?
    ensures obj.None? ==> !r
    ensures obj == Some(m) ==> r
    ensures r <==> obj.Some? && obj.value.SpecBodySaved? && obj.value.id == m.id && obj.value.revision == m.revision
  {
    match obj
    case None => false
    case Some(other) =>
      if !other.SpecBodySaved? then false
      else other.id == m.id && other.revision == m.revision
  }

  /** A string's hash code, or 0 for null. */
  function HashOrZero(s: Option<string>, hash: string -> bv32): (h: bv32)
    ensures s.None? ==> h == 0
  {
    match s
    case None => 0
    case Some(v) => hash(v)
  }

  /** Combining two hash codes, in 32-bit arithmetic that wraps around. */
  function Combine(first: bv32, second: bv32): bv32
  {
    (first * 397) ^ second
  }

  /** The hash code of a saved notice. */
  function SavedHashCode(m: ClientMessage, hash: string -> bv32): bv32
    requires m.SpecBodySaved?
  {
    Combine(HashOrZero(m.id, hash), HashOrZero(m.revision, hash))
  }

  /** Equality is reflexive, symmetric and transitive. */
  lemma SavedEqualsIsEquivalence(a: ClientMessage, b: ClientMessage, c: ClientMessage)
    requires a.SpecBodySaved? && b.SpecBodySaved? && c.SpecBodySaved?
    ensures SavedEquals(a, Some(a))
    ensures SavedEquals(a, Some(b)) == SavedEquals(b, Some(a))
    ensures SavedEquals(a, Some(b)) && SavedEquals(b, Some(c)) ==> SavedEquals(a, Some(c))
  {
  }

  /** A save request never equals a saved notice, even with the same id and revision. */
  lemma RequestIsNotNotice(m: ClientMessage, request: ClientMessage)
    requires m.SpecBodySaved? && request.SaveSpecBody?
    ensures !SavedEquals(m, Some(request))
  {
  }

  /** Equal notices have equal hash codes, whatever the string hash. */
  lemma SavedHashConsistent(a: ClientMessage, b: ClientMessage, hash: string -> bv32)
    requires a.SpecBodySaved? && b.SpecBodySaved? && SavedEquals(a, Some(b))
    ensures SavedHashCode(a, hash) == SavedHashCode(b, hash)
  {
    assert HashOrZero(a.id, hash) == HashOrZero(b.id, hash);
    assert HashOrZero(a.revision, hash) == HashOrZero(b.revision, hash);
  }

  /** The time stamp is ignored: the same notice stamped at another time is equal to it and
      hashes alike. */
  lemma TimeIsIgnored(m: ClientMessage, later: string, hash: string -> bv32)
    requires m.SpecBodySaved?
    ensures SavedEquals(m, Some(m.(time := later)))
    ensures SavedHashCode(m, hash) == SavedHashCode(m.(time := later), hash)
  {
    var n := m.(time := later);
    assert n.id == m.id && n.revision == m.revision;
  }

  /** The hash with neither id nor revision is 0, and the id's hash is scaled by 397 with
      wrap-around: an id hashing to 2^31 contributes nothing once multiplied. */
  lemma SavedHashValues(hash: string -> bv32)
    requires hash("a") == 0x8000_0000 && hash("7") == 5
    ensures SavedHashCode(NewSpecBodySaved("10:15 AM"), hash) == 0
    ensures SavedHashCode(SpecBodySaved(SpecBodySavedType, Some("a"), Some("7"), ""), hash) == 0x8000_0005
  {
    assert Combine(0, 0) == 0;
    assert Combine(0x8000_0000, 5) == 0x8000_0005;
  }
}
