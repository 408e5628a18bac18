/**
 * Values shared by every layer: bounded integers, pages and results.
 */
module Types {

  type Byte = x: int | 0 <= x < 0x100
  type U16 = x: int | 0 <= x < 0x1_0000
  type U32 = x: int | 0 <= x < 0x1_0000_0000

  /** Size of a page of the database file, in bytes. */
  const PAGE_SIZE := 4096

  /** A record id: the page and the slot as one number. */
  type Id = nat

  /** The contents of one page. */
  type Page = s: seq<Byte> | |s| == PAGE_SIZE witness seq(PAGE_SIZE, _ => 0)

  const ZERO_PAGE: Page := Zeros()

  function Zeros(): Page {
    seq(PAGE_SIZE, _ => 0)
  }

  datatype Option<+T> = None | Some(value: T)

  datatype GraphError =
    | StorageCorrupted(id: nat)
    | IoError
    | BadMagic
    | UnsupportedVersion(found: U32)
    | Closed
    | TransactionInProgress
    | NoTransaction
    | NodeNotFound
    | EdgeNotFound
    | UniqueViolation
    | SchemaError
    | ValidationError

  datatype Result<+T> = Ok(value: T) | Err(error: GraphError) {
    predicate IsFailure() {
      Err?
    }

    function PropagateFailure<U>(): Result<U>
      requires Err?
    {
      Err(error)
    }

    function Extract(): T
      requires Ok?
    {
      value
    }
  }
}
