/**
 Small shared vocabulary: an optional value and the byte type of an
 uploaded payload.
 */
module Common {

  /** A value that may be absent, the model of Python's `None`. */
  datatype Option<+T> = None | Some(value: T)

  /** One byte of a request payload. */
  newtype byte = x: int | 0 <= x < 256
}

/**
 The shape of every JSON reply of the service: either a success body
 (HTTP 200) or `{"success": false, "error": ...}` with an HTTP status.
 */
module Http {

  datatype Response<+T> = Ok(body: T) | Err(status: nat, error: string) {

    /** The HTTP status code the reply is sent with. */
    function Status(): nat {
      if Ok? then 200 else status
    }
  }

  /** The status of every validation failure. */
  const BadRequest: nat := 400

  /** The status of a fault caught by the handler's catch-all. */
  const InternalError: nat := 500
}
