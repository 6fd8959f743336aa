/** Values shared by every layer: Go's optional pointer results, its `error`
    values, identifiers, timestamps and 64-bit integers. */
module Base {

  /** A Go pointer result (`*models.Engine`): `nil` or a value. */
  datatype Option<+T> = None | Some(value: T)

  /** A Go `error`. `sql.ErrNoRows` is a sentinel that Go compares by
      identity, so it is a constructor of its own and never equal to an error
      built from a message with `errors.New`. */
  datatype Error = ErrNoRows | Message(text: string)

  /** A UUID in its canonical text form; request paths carry ids as text. */
  type Uuid = string

  /** The zero `uuid.UUID`. */
  const NilUuid: Uuid := "00000000-0000-0000-0000-000000000000"

  /** A `time.Time`: the zero time or an instant read from the clock. */
  datatype Time = ZeroTime | Instant(unixNanos: int)

  /** Go's `int64`. */
  newtype Int64 = x: int | -0x8000_0000_0000_0000 <= x < 0x8000_0000_0000_0000
}
