/**
 The raw-file API formatter. Given the result data of a request it either
 streams a file with six download headers, or, when the data carries an
 error, hands every printer call to a fallback printer chosen when the
 formatter was built. Output side effects are returned as values: the
 status forced by `initPrinter`, the header lines and the file body of
 `execute`, and `DebugDie` for `ApiBase::dieDebug`.
 */
module RawFileFormatter {
  import opened Optional
  import opened PhpValues
  import opened HeaderLines

  /** The answers of the content-negotiated error printer; its MIME type may be null. */
  datatype Fallback = Fallback(mimeType: Value, filename: string)

  /**
   What the base formatter supplies: its two HTML modes, and its own
   `getFilename`, which may call back into this formatter's `getMimeType`
   (late binding) and so is given the outcome of that call.
   */
  datatype ParentFormat = ParentFormat(filenameFor: Outcome<Value> -> Outcome<string>, isWrappedHtml: bool, isHtml: bool)

  /** The formatter's state: the fallback printer, the base formatter and the HTTP-error flag. */
  datatype Printer = Printer(errorFallback: Fallback, parent: ParentFormat, failWithHttpError: bool)

  /** The printer a delegated call goes to. */
  datatype Handler = ErrorFallback | Parent

  /** The effect of `initPrinter`: who initialised, and the status it forced, if any. */
  datatype InitEffect = InitEffect(handler: Handler, status: Option<int>)

  /** A result, or the abort raised by `ApiBase::dieDebug` with its message. */
  datatype Outcome<+T> = Done(value: T) | DebugDie(message: string)

  /** The response body: whatever `readfile(path)` writes. Its result is not checked, so this may be empty or cut short. */
  datatype Body = FileBytes(path: string)

  /** What `execute` produces when it does not abort. `Streamed` ends the request. */
  datatype ExecResponse = Delegated | Streamed(headers: seq<string>, body: Body)

  const BadRequest: int := 400

  const ContentType := "Content-Type"
  const ContentLength := "Content-Length"
  const ContentDisposition := "Content-Disposition"

  /** The field names of the six download headers, in the order they are sent. */
  const DownloadHeaderNames: seq<string> :=
    [ContentType, ContentLength, ContentDisposition, "Expires", "Cache-Control", "Pragma"]

  const NoMimeMessage := "No MIME type set for raw formatter"
  const NoPathMessage := "No file system path given for raw file format"

  /** A new formatter over the given fallback printer; it does not fail with an HTTP error. */
  function NewPrinter(fallback: Fallback, parent: ParentFormat): (p: Printer)
    ensures !p.failWithHttpError
    ensures p.errorFallback == fallback && p.parent == parent
  {
    Printer(fallback, parent, false)
  }

  /** `setFailWithHTTPError`: stores the flag and leaves everything else alone. */
  function SetFailWithHttpError(p: Printer, fail: bool): (q: Printer)
    ensures q.failWithHttpError == fail
    ensures q.errorFallback == p.errorFallback && q.parent == p.parent
  {
    p.(failWithHttpError := fail)
  }

  /** The test opening `getMimeType`, `initPrinter`, `closePrinter` and `execute`: reading `error` or `errors` gives a non-null value. */
  predicate IsErrorResult(data: ResultData)
    ensures IsErrorResult(data) <==> Index(data, "error") != Null || Index(data, "errors") != Null
  {
    Isset(data, "error") || Isset(data, "errors")
  }

  function GetMimeType(p: Printer, data: ResultData): (r: Outcome<Value>)
    ensures IsErrorResult(data) ==> r == Done(p.errorFallback.mimeType)
    ensures r.DebugDie? <==> !IsErrorResult(data) && !Isset(data, "mime")
    ensures r.Done? && !IsErrorResult(data) ==> r.value != Null && r.value == data["mime"]
  {
    if IsErrorResult(data) then Done(p.errorFallback.mimeType)
    else if !Isset(data, "mime") then DebugDie(NoMimeMessage)
    else Done(data["mime"])
  }

  /** A filename outcome of the base formatter, its name as a string value. */
  function NameValue(o: Outcome<string>): Outcome<Value>
  {
    match o
    case Done(name) => Done(Str(name))
    case DebugDie(message) => DebugDie(message)
  }

  /** `parent::getFilename()`: the base formatter's name, computed from the late-bound MIME type. */
  function ParentFilename(p: Printer, data: ResultData): (r: Outcome<Value>)
    ensures r.Done? ==> r.value.Str?
    ensures r.Done? <==> p.parent.filenameFor(GetMimeType(p, data)).Done?
  {
    NameValue(p.parent.filenameFor(GetMimeType(p, data)))
  }

  /**
   `getFilename`. Only the `error` key sends it to the fallback; `errors`
   alone does not. Outside that case either HTML mode, or an unset
   `filename`, gives the base formatter's name; otherwise `filename` wins.
   */
  function GetFilename(p: Printer, data: ResultData): (r: Outcome<Value>)
    ensures Isset(data, "error") ==> r == Done(Str(p.errorFallback.filename))
    ensures !Isset(data, "error") && (p.parent.isWrappedHtml || p.parent.isHtml || !Isset(data, "filename")) ==>
              r == ParentFilename(p, data)
    ensures !Isset(data, "error") && !p.parent.isWrappedHtml && !p.parent.isHtml && Isset(data, "filename") ==>
              r == Done(data["filename"])
    ensures r.Done? ==> r.value != Null
  {
    if Isset(data, "error") then Done(Str(p.errorFallback.filename))
    else if !Isset(data, "filename") || p.parent.isWrappedHtml || p.parent.isHtml then ParentFilename(p, data)
    else Done(data["filename"])
  }

  /** Status 400 is forced exactly on error data when the flag is on; no other status is ever forced. */
  function InitPrinter(p: Printer, data: ResultData): (r: InitEffect)
    ensures r.handler == ErrorFallback <==> IsErrorResult(data)
    ensures r.status == Some(BadRequest) <==> IsErrorResult(data) && p.failWithHttpError
    ensures r.status.Some? ==> r.status.value == BadRequest
  {
    if IsErrorResult(data) then
      InitEffect(ErrorFallback, if p.failWithHttpError then Some(BadRequest) else None)
    else
      InitEffect(Parent, None)
  }

  function ClosePrinter(p: Printer, data: ResultData): (r: Handler)
    ensures r == ErrorFallback <==> IsErrorResult(data)
  {
    if IsErrorResult(data) then ErrorFallback else Parent
  }

  /** The six header fields `execute` sends, as name and value; a missing key interpolates as the empty string. */
  function DownloadFields(data: ResultData): (r: seq<(string, string)>)
    ensures |r| == |DownloadHeaderNames|
    ensures forall i :: 0 <= i < |r| ==> r[i].0 == DownloadHeaderNames[i] && ':' !in r[i].0
    ensures r[0].1 == Interpolate(Index(data, "mime")) && r[1].1 == Interpolate(Index(data, "size"))
    ensures r[2].1 == "attachment; filename=" + Interpolate(Index(data, "filename"))
  {
    [ (ContentType, Interpolate(Index(data, "mime"))),
      (ContentLength, Interpolate(Index(data, "size"))),
      (ContentDisposition, "attachment; filename=" + Interpolate(Index(data, "filename"))),
      ("Expires", "0"),
      ("Cache-Control", "must-revalidate"),
      ("Pragma", "public") ]
  }

  /** `execute`: `fileExists` stands for PHP's `file_exists`. */
  function Execute(p: Printer, fileExists: string -> bool, data: ResultData): (r: Outcome<ExecResponse>)
    ensures r == Done(Delegated) <==> IsErrorResult(data)
    ensures r.DebugDie? <==> !IsErrorResult(data) && (!Isset(data, "filepath") || !fileExists(Interpolate(data["filepath"])))
    ensures r.Done? && r.value.Streamed? ==>
              && |r.value.headers| == |DownloadHeaderNames|
              && r.value.body == FileBytes(Interpolate(data["filepath"]))
              && fileExists(r.value.body.path)
  {
    if IsErrorResult(data) then Done(Delegated)
    else if !Isset(data, "filepath") then DebugDie(NoPathMessage)
    else
      var path := Interpolate(data["filepath"]);
      if !fileExists(path) then DebugDie(path + " not found")
      else Done(Streamed(FormatHeaders(DownloadFields(data)), FileBytes(path)))
  }
}
