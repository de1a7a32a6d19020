/** Failure-carrying results shared by every component. */
module Wrappers {
  import opened Wire

  datatype Option<+T> = None | Some(value: T)

  /** The failure conditions the converter reports (context annotations are not modelled). */
  datatype Error =
    | TooShort(head: nat)                         // window shorter than an 8- or 16-byte header
    | SizeOverflow(declared: nat, available: nat) // declared size exceeds the bytes after the header
    | MissingSize                                 // element without a size attribute
    | InvalidSize                                 // size attribute that is not a u32
    | UnknownTag                                  // element name the tag decoder rejects
    | MalformedMarkup                             // text that is not UTF-8 or not well-formed markup
    | UnexpectedInitialBytes(lead: seq<Byte>)     // neither the binary magic nor a markup start

  datatype Result<+T> = Ok(value: T) | Err(error: Error)
}
