/** Types and facts several components share. */
module Common {

  type Byte = b: int | 0 <= b < 0x100
  type Word = w: int | 0 <= w < 0x1_0000_0000

  datatype Option<T> = None | Some(value: T)

  const WORD_LIMIT := 0x1_0000_0000
  const MAXINT := 0x7FFF_FFFF
  const SECTOR_SIZE := 512

  /** A piece of a sector that was read, as reported to disk_read_func. */
  datatype Event = Event(sector: nat, offset: nat, length: nat)

  lemma Assoc<T>(a: seq<T>, b: seq<T>, c: seq<T>)
    ensures a + (b + c) == (a + b) + c
  {
  }

  lemma EmptyLeft<T>(s: seq<T>)
    ensures [] + s == s
  {
  }
}
