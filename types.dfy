/**
 * The shared declarations of the calculator: the numeric bases of the
 * programmer mode, the calculator modes, memory slots and history entries,
 * and the list of unit categories offered to the user.
 */
module Types {
  import opened Wrappers

  datatype NumberBase = Binary | Octal | Decimal | Hexadecimal

  datatype CalculatorMode = Basic | Scientific | Programmer | Graphing | Financial

  /** A memory register: its value and an optional label (`label` is a Dafny keyword, hence `caption`). */
  datatype MemorySlot = MemorySlot(value: real, caption: Option<string>)

  /**
   * One completed calculation.  The identifier and the timestamp are
   * produced by the host (a random UUID and the current time) and are given
   * to the model as values.
   */
  datatype HistoryEntry = HistoryEntry(
    id: string,
    expression: string,
    result: string,
    timestamp: int,
    mode: CalculatorMode)

  /** The unit categories the converter screen lists, in display order. */
  const UnitCategories: seq<string> :=
    ["Length", "Weight", "Temperature", "Volume", "Area", "Speed", "Time",
     "Energy", "Power", "Pressure"]
}
