/** Failure values shared by the codec, the read path and the device model.
    Every Python exception the core raises (or wraps and re-raises) is one
    `Error`; an operation that may raise returns a `Result`. */
module Outcomes {

  datatype Option<+T> = None | Some(value: T)

  datatype Error =
    | IndexError                       // indexing past the end of a str or list
    | KeyError                         // a dict lookup of a missing key
    | ValueError                       // int()/long()/float() of a malformed string
    | EngineFailure                    // the polling engine raised (not modelled further)
    | ValueNotUpdated                  // readCommand: the cached answer is missing or empty
    | CommFailed                       // readCommand: the answer fails its REGEXPS pattern
    | ReadCommandError(cause: Error)   // readCommand re-raises every failure as one exception
    | ProtocolError(code: char, description: string)  // SendCommand: a NACK from the controller
    | WrongDataLength                  // write_IonPumpsConfig: not exactly two entries
    | UnknownType                      // write_IonPumpsConfig: name not in DeviceTypes
    | NackReceived                     // write_IonPumpsConfig: an answer line is not ACK
    | SendCommandError                 // SendCommand: serialComm raised during the exchange

  datatype Result<+T> = Ok(value: T) | Err(error: Error)
}
