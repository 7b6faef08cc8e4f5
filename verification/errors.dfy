/** What the stores throw, and how `config-file-schema` turns file-system
    and parser failures into `CodedError`s using the caller's overrides. */
module Errors {
  import opened Js
  import opened FileSystem

  /** A thrown exception. */
  datatype Error =
    | Os(cause: OsError)                    // an errno exception rethrown unchanged
    | Coded(message: string, code: string)  // a `CodedError`
    | Syntax(message: string)               // `JSON.parse`'s `SyntaxError`
    | JsonError(message: string)            // the error `parse-json` throws
    | Failed(message: string)               // a plain `Error` thrown by a store or by the cast

  /** The `{ message?, code? }` a caller configures for one kind of failure.
      The source types `code` as `any`; it is modelled as an optional string. */
  datatype Override = Override(message: Option<string>, code: Option<string>)

  /** The state of the file system after an operation, with what it returned or threw. */
  datatype Effect<+R> = Effect(result: Result<R, Error>, fs: Fs)

  /** What `write` returns: whether the file was replaced, and the text written. */
  datatype Written = Written(changed: bool, serialized: string)

  const FileNotFound := "File not found"
  const PermissionNotGranted := "Permission not granted on file"

  /** The `CodedError` built from an override: the message is the first
      truthy of the override's message, the OS message and the fallback; the
      code is the override's code if truthy, else the fallback code. */
  function Remapped(ov: Override, e: OsError, fallbackMessage: string, fallbackCode: string): (r: Error)
    ensures r.Coded?
    ensures Truthy(ov.message) ==> r.message == ov.message.value
    ensures !Truthy(ov.message) && e.message != "" ==> r.message == e.message
    ensures !Truthy(ov.message) && e.message == "" ==> r.message == fallbackMessage
    ensures Truthy(ov.code) ==> r.code == ov.code.value
    ensures !Truthy(ov.code) ==> r.code == fallbackCode
  {
    Coded(Or(ov.message, Or(Some(e.message), fallbackMessage)), Or(ov.code, fallbackCode))
  }

  /** A failed `readFileSync`: an ENOENT or EACCES error for which the caller
      configured an override becomes a `CodedError`; anything else is rethrown. */
  function RemapRead(e: OsError, enoent: Option<Override>, eacces: Option<Override>): (r: Error)
    ensures r.Coded? <==> (e.code == ENOENT && enoent.Some?) || (e.code == EACCES && eacces.Some?)
    ensures !r.Coded? ==> r == Os(e)
    ensures r.Coded? ==> r.message != "" && r.code != ""
    ensures e.code == ENOENT && enoent.Some? ==> r == Remapped(enoent.value, e, FileNotFound, "ENOENT")
    ensures e.code == EACCES && eacces.Some? ==> r == Remapped(eacces.value, e, PermissionNotGranted, "EACCES")
  {
    if e.code == ENOENT && enoent.Some? then
      Remapped(enoent.value, e, FileNotFound, "ENOENT")
    else if e.code == EACCES && eacces.Some? then
      Remapped(eacces.value, e, PermissionNotGranted, "EACCES")
    else
      Os(e)
  }

  /** A failed directory creation or temp-file write: only EACCES is remapped. */
  function RemapWrite(e: OsError, eacces: Option<Override>): (r: Error)
    ensures r.Coded? <==> e.code == EACCES && eacces.Some?
    ensures !r.Coded? ==> r == Os(e)
    ensures r.Coded? ==> r == Remapped(eacces.value, e, PermissionNotGranted, "EACCES")
    ensures r == RemapRead(e, None, eacces)
  {
    if e.code == EACCES && eacces.Some? then
      Remapped(eacces.value, e, PermissionNotGranted, "EACCES")
    else
      Os(e)
  }

  /** The default message for a document that does not parse. */
  function Unparsable(path: string): string {
    "Contents of " + path + " could not be parsed. Please ensure file is in a valid format. \n"
  }

  /** A `SyntaxError` from parsing the file at `path`. Without a `parseError`
      override it is rethrown as is; with one it becomes a `CodedError` whose
      message ends with the parser's message. A configured message is used
      even when it is empty, because `"" + "\n" + msg` is truthy. */
  function ParseFailure(path: string, syntaxMessage: string, parseError: Option<Override>): (r: Error)
    ensures parseError.None? ==> r == Syntax(syntaxMessage)
    ensures parseError.Some? ==> r.Coded? && EndsWith(r.message, syntaxMessage)
    ensures parseError.Some? && parseError.value.message.Some? ==>
      r.message == parseError.value.message.value + "\n" + syntaxMessage
    ensures parseError.Some? && parseError.value.message.None? ==>
      r.message == Unparsable(path) + syntaxMessage
    ensures parseError.Some? && Truthy(parseError.value.code) ==> r.code == parseError.value.code.value
    ensures parseError.Some? && !Truthy(parseError.value.code) ==> r.code == "parseError"
  {
    match parseError
    case None => Syntax(syntaxMessage)
    case Some(ov) =>
      var message := Or(ConcatOpt(ov.message, "\n" + syntaxMessage), Unparsable(path) + syntaxMessage);
      Coded(message, Or(ov.code, "parseError"))
  }
}
