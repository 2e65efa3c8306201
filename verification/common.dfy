/** Shared vocabulary of the model: fixed-width integers, Option, and the
    error/result types the registry subsystem reports. */
module Common {

  /** Rust `u32`. */
  type u32 = x: int | 0 <= x < 0x1_0000_0000

  /** Rust `u8`, the element of a binary registry value. */
  type u8 = x: int | 0 <= x < 0x100

  datatype Option<+T> = None | Some(value: T)

  /** `a` when it is present, otherwise `b`. */
  function Overlay<T>(a: Option<T>, b: Option<T>): Option<T> {
    if a.Some? then a else b
  }

  /** The error kinds raised by the registry editor.  `Validation` and
      `RegistryError` are the two kinds the editor and the store use;
      `InvalidPath` is raised when the prefix's `user.reg` cannot be located. */
  datatype Error =
    | Validation(message: string)
    | RegistryError(message: string)
    | InvalidPath(message: string)

  /** The text an error displays as.  `Validation` and `InvalidPath` carry
      the prefixes of the prefix error type's `Display`; `RegistryError` has
      no `Display` arm there and is shown as its bare message. */
  function ErrorText(e: Error): string {
    match e
    case Validation(m) => "Validation error: " + m
    case InvalidPath(m) => "Invalid path: " + m
    case RegistryError(m) => m
  }

  datatype Result<+T> = Ok(value: T) | Err(error: Error)

  /** `Result<()>` */
  type Status = Result<()>
}
