/** The value types shared by the world engine and the agents (lib.rs). */
module Types {

  /** Entity identifiers are unsigned integers handed out by the environment. */
  type EntityId = nat

  /** A grid coordinate; both components are unsigned. */
  datatype Position = Position(x: nat, y: nat)

  /** The colour tag shared by doors and keys. */
  datatype DoorKeyType = Red | Green | Blue | Yellow

  /** Things that lie on the item grid or sit in an inventory. */
  datatype Item = Key(keyType: DoorKeyType) | Chip | Goal
}
