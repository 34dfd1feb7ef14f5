/** Small value types shared by every module of the model. */
module Common {

  /** A byte of file or archive content. */
  newtype byte = x: int | 0 <= x < 256

  type Bytes = seq<byte>

  /** A relative path below the game directory, with '/' as separator. */
  type Path = string

  datatype Option<+T> = None | Some(value: T) {
    /** Rust's `Option::or`: this value if present, otherwise `other`. */
    function Or(other: Option<T>): Option<T> {
      if Some? then this else other
    }

    /** Rust's `Option::unwrap_or`. */
    function GetOr(default: T): T {
      if Some? then value else default
    }
  }

  /** Rust's `Result<T, String>`: a value or an error message. */
  datatype Result<+T> = Success(value: T) | Failure(error: string)

  /** Rust's `Result<(), String>` as the source uses it: success or a message. */
  datatype Outcome = Ok | Err(msg: string)
}
