/** Values shared by every part of the model: optional values, the exceptions the
    plugin can raise, and the result of a step that may raise part-way through. */
module Common {

  datatype Option<T> = None | Some(value: T)

  /** The Python exceptions the protocol engine can raise, by cause. */
  datatype Error =
    | UndecodableHeader            // bytes.decode("utf8") on a header line
    | NotAnInteger                 // int(v) on the value of a `data` header
    | TooManyColons                // unpacking v.split(":") of a `display-name` into two names
    | MissingAttribute(name: string) // an attribute read before any header set it
    | MissingKey(key: string)      // env[key] for a header that was never sent
    | SocketClosed                 // socket.send or shutdown after the socket was shut down
    | NoSuchFile                   // open(..., "rb") or os.unlink of a path that does not exist
    | NoSuchDir                    // os.rmdir of a directory that does not exist
    | DirNotEmpty                  // os.rmdir of a directory that still holds a file
    | IsADirectory                 // os.remove of a directory
    | NotRegistered                // FILES[view] or FILES.pop(view) for a view with no transfer

  /** The state after a step, and the exception that ended it early, if any.
      A step that raises keeps every effect it had before the raise. */
  datatype Effect<S> = Effect(state: S, raised: Option<Error>) {
    predicate Ok() { raised.None? }
  }

  function Done<S>(s: S): Effect<S> { Effect(s, None) }

  function Raise<S>(s: S, e: Error): Effect<S> { Effect(s, Some(e)) }
}
