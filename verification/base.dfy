/** Small shared vocabulary: optional values (SQL NULL, JavaScript null or
    undefined) and the 32-bit integer range of the database's INT columns. */
module Base {

  /** A value that may be absent. */
  datatype Option<+T> = None | Some(value: T) {

    /** The value, or `default` when absent. */
    function GetOr(default: T): T {
      match this
      case Some(v) => v
      case None => default
    }
  }

  const INT32_MIN: int := -0x8000_0000
  const INT32_MAX: int := 0x7FFF_FFFF

  /** Whether `n` fits a SQL Server INT column. */
  predicate FitsInt32(n: int) {
    INT32_MIN <= n <= INT32_MAX
  }

  /** The values an INT column can hold. */
  type Int32 = n: int | FitsInt32(n)

  /** The values a CharField(max_length=50) column can hold. */
  type Varchar50 = s: string | |s| <= 50
}
