/** What several of the models share. */
module Common {

  datatype Option<+T> = None | Some(value: T)

  type Byte = b: nat | b < 256

  const TWO32 := 0x1_0000_0000
  const TWO40 := 0x100_0000_0000

  /** A 32-bit word stored in an `int`. */
  function ToInt32(w: nat): int { if w % TWO32 < TWO32 / 2 then w % TWO32 else w % TWO32 - TWO32 }

  lemma Assoc<T>(x: seq<T>, y: seq<T>, z: seq<T>)
    ensures x + y + z == x + (y + z)
  {
  }
}
