/** Values that travel between the gateway's components: optional values, results that
    carry a RuntimeException's code and message, uploaded files, and the JSON or download
    responses the controllers build. */
module Http {

  datatype Option<+T> = None | Some(value: T) {
    function GetOr(default: T): T {
      match this
      case Some(v) => v
      case None => default
    }
  }

  /** A value, or the code and message of the RuntimeException raised instead. */
  datatype Result<+T> = Ok(value: T) | Err(code: int, message: string)

  newtype Byte = b: int | 0 <= b < 256

  /** One entry of getUploadedFiles(): the client-supplied name (absent when the client sent
      none) and the bytes that moveTo would write. */
  datatype UploadedFile = UploadedFile(clientFilename: Option<string>, content: seq<Byte>)

  /** The parsed login body: each field is absent when the body has no such key or holds null. */
  datatype LoginBody = LoginBody(login: Option<string>, password: Option<string>)

  /** The parts of a PSR-7 request the core reads: the values of the `auth` header, the
      `userId` attribute set by the authorisation filter, the `{path}` route argument, the
      uploaded files and the parsed body. */
  datatype Request = Request(
    auth: seq<string>,
    userId: Option<int>,
    pathArg: Option<string>,
    uploads: seq<UploadedFile>,
    body: LoginBody)

  /** What the response factory produces: a JSON error `{error}`, a JSON `{result}`, the
      login answer `{token, expires_at}`, or a file download with its headers. */
  datatype Response =
    | JsonError(status: int, error: string)
    | JsonResult(status: int, result: string)
    | JsonToken(status: int, token: string, expiresAt: int)
    | Download(mime: string, filename: string, size: nat, content: seq<Byte>)
}
