/** The data shapes the engine passes around: positions, entities and the
    enumerations that tag them (backend/server.py, the pydantic models). */
module Entities {

  datatype Option<+T> = None | Some(value: T)

  /** What a detected span is (EntityType). */
  datatype EntityType = Phone | Email | Siret | Ssn | Address | Legal | Person | Organization

  /** Which detector produced an entity (EntitySource). */
  datatype EntitySource = Regex | Ner | Ollama | Manual

  /** Character offsets of a span, end exclusive. */
  datatype Position = Position(start: int, end: int)

  /** A detected span. The random `id` of the source is not modelled; the
      confidence is kept as an exact real. */
  datatype Entity = Entity(
    text: string,
    kind: EntityType,
    source: EntitySource,
    confidence: real,
    replacement: string,
    positions: seq<Position>,
    selected: bool)
  {
    /** The entity has a first position, which is the only one the engine reads. */
    predicate Located() {
      |positions| > 0
    }

    function Start(): int
      requires Located()
    {
      positions[0].start
    }

    function End(): int
      requires Located()
    {
      positions[0].end
    }
  }

  /** The identity used by deduplication: text and first position. */
  type Key = (string, int, int)

  function KeyOf(e: Entity): Key
    requires e.Located()
  {
    (e.text, e.Start(), e.End())
  }

  predicate AllLocated(es: seq<Entity>) {
    forall e :: e in es ==> e.Located()
  }
}
