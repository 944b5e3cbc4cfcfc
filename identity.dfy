/** The identity space of the ECS core (ECS/Entity.h): entity ids,
    the invalid sentinel, and the capacity constants. */
module Identity {

  /** An entity id; the source stores it in a `uint32_t`. */
  type Entity = nat

  /** A component-type id; the source stores it in a `uint8_t`. */
  type ComponentType = nat

  const INVALID_ENTITY: Entity := 0
  const MAX_ENTITIES: Entity := 10000
  const MAX_COMPONENT_TYPES: ComponentType := 64

  /** Exclusive upper bounds of the source's integer widths. */
  const UINT32_LIMIT: nat := 0x1_0000_0000
  const UINT8_LIMIT: nat := 0x100

  /** Ids that may name a live entity: the half-open range (0, MAX_ENTITIES). */
  predicate IsValidRange(e: Entity)
  {
    e != INVALID_ENTITY && e < MAX_ENTITIES
  }

  /** The constants fit the widths the source gives them, and the invalid
      sentinel lies outside the usable range. */
  lemma ConstantsFitTheirWidths()
    ensures INVALID_ENTITY == 0 && MAX_ENTITIES == 10000 && MAX_COMPONENT_TYPES == 64
    ensures MAX_ENTITIES < UINT32_LIMIT && MAX_COMPONENT_TYPES < UINT8_LIMIT
    ensures !IsValidRange(INVALID_ENTITY) && !IsValidRange(MAX_ENTITIES)
    ensures forall e: Entity :: IsValidRange(e) ==> e < UINT32_LIMIT
  {
  }
}
