/** The `EResult` codes of the Steam protocol that the core names. */
module Steam {

  /** `EResult` is an integer-valued enumeration; results arriving from a session may be any code. */
  type EResult = int

  const Invalid: EResult := 0
  const OK: EResult := 1
  const NoConnection: EResult := 3
  const Pending: EResult := 22
}
