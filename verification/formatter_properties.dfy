/**
 Properties of the raw-file formatter that relate several of its
 operations, or one operation on different inputs.
 */
module FormatterProperties {
  import opened Optional
  import opened PhpValues
  import opened HeaderLines
  import opened RawFileFormatter

  /**
   Error mode is decided by the `error`/`errors` entries alone: on two
   results that agree on those entries, init, close and execute make the
   same choice, whatever the printers and file systems, and in error mode
   the MIME type is each printer's fallback's.
   */
  lemma ErrorModeByKeyPresence(p1: Printer, p2: Printer, fe1: string -> bool, fe2: string -> bool,
                               d1: ResultData, d2: ResultData)
    requires Index(d1, "error") == Index(d2, "error") && Index(d1, "errors") == Index(d2, "errors")
    ensures InitPrinter(p1, d1).handler == ClosePrinter(p2, d2)
    ensures Execute(p1, fe1, d1) == Done(Delegated) <==> ClosePrinter(p2, d2) == ErrorFallback
    ensures Execute(p1, fe1, d1) == Done(Delegated) <==> Execute(p2, fe2, d2) == Done(Delegated)
    ensures ClosePrinter(p1, d1) == ErrorFallback ==>
              GetMimeType(p1, d1) == Done(p1.errorFallback.mimeType) && GetMimeType(p2, d2) == Done(p2.errorFallback.mimeType)
  {
  }

  /** Adding a non-null `error` entry to any result data puts every operation in error mode. */
  lemma ErrorKeyForcesErrorMode(p: Printer, fileExists: string -> bool, data: ResultData, e: Value)
    requires e != Null
    ensures GetMimeType(p, data["error" := e]) == Done(p.errorFallback.mimeType)
    ensures GetFilename(p, data["error" := e]) == Done(Str(p.errorFallback.filename))
    ensures InitPrinter(p, data["error" := e]).handler == ErrorFallback
    ensures ClosePrinter(p, data["error" := e]) == ErrorFallback
    ensures Execute(p, fileExists, data["error" := e]) == Done(Delegated)
  {
  }

  /** On non-error data the MIME type comes from the data alone: the printer is not consulted, and a missing `mime` aborts. */
  lemma SuccessMimeFromData(p1: Printer, p2: Printer, data: ResultData)
    requires !IsErrorResult(data)
    ensures GetMimeType(p1, data) == GetMimeType(p2, data)
    ensures Isset(data, "mime") ==> GetMimeType(p1, data) == Done(data["mime"])
    ensures !Isset(data, "mime") ==> GetMimeType(p1, data) == DebugDie(NoMimeMessage)
  {
  }

  /** The `errors` key reaches `getFilename` only through the late-bound MIME type: when removing it leaves the MIME type alone, it leaves the filename alone. */
  lemma FilenameSeesErrorsOnlyThroughMime(p: Printer, data: ResultData)
    requires GetMimeType(p, data) == GetMimeType(p, data - {"errors"})
    ensures GetFilename(p, data) == GetFilename(p, data - {"errors"})
  {
    assert Isset(data, "error") == Isset(data - {"errors"}, "error");
    assert Isset(data, "filename") == Isset(data - {"errors"}, "filename");
  }

  /**
   With `errors` but no `error`, the MIME type is the fallback's, yet the
   fallback's own filename is never used: the name is either the data's
   `filename` or the base formatter's name for the fallback's MIME type.
   Two fallbacks with the same MIME type give the same filename.
   */
  lemma ErrorsOnlyAsymmetry(p: Printer, other: Fallback, data: ResultData)
    requires Isset(data, "errors") && !Isset(data, "error")
    requires other.mimeType == p.errorFallback.mimeType
    ensures GetMimeType(p, data) == Done(p.errorFallback.mimeType)
    ensures GetFilename(p, data) == GetFilename(p.(errorFallback := other), data)
    ensures !Isset(data, "filename") || p.parent.isWrappedHtml || p.parent.isHtml ==>
              GetFilename(p, data) == NameValue(p.parent.filenameFor(Done(p.errorFallback.mimeType)))
    ensures Isset(data, "filename") && !p.parent.isWrappedHtml && !p.parent.isHtml ==>
              GetFilename(p, data) == Done(data["filename"])
  {
  }

  /** Outside error mode, either HTML mode wins over a `filename` in the data: the base formatter's name is used whether or not one is given. */
  lemma HtmlModeOverridesFilename(p: Printer, data: ResultData, name: Value)
    requires !Isset(data, "error")
    requires p.parent.isWrappedHtml || p.parent.isHtml
    ensures GetFilename(p, data["filename" := name]) == ParentFilename(p, data)
    ensures GetFilename(p, data - {"filename"}) == ParentFilename(p, data)
  {
    var d1 := data["filename" := name];
    var d2 := data - {"filename"};
    assert IsErrorResult(d1) == IsErrorResult(data) && Isset(d1, "mime") == Isset(data, "mime");
    assert IsErrorResult(d2) == IsErrorResult(data) && Isset(d2, "mime") == Isset(data, "mime");
    assert GetMimeType(p, d1) == GetMimeType(p, data);
    assert GetMimeType(p, d2) == GetMimeType(p, data);
  }

  /** Outside error mode and HTML modes, the data's `filename` is used when set and the base formatter's name otherwise. */
  lemma FilenameFromDataWhenPlain(p: Printer, data: ResultData)
    requires !Isset(data, "error")
    requires !p.parent.isWrappedHtml && !p.parent.isHtml
    ensures Isset(data, "filename") ==> GetFilename(p, data) == Done(data["filename"])
    ensures !Isset(data, "filename") ==> GetFilename(p, data) == ParentFilename(p, data)
  {
  }

  /** A freshly built formatter never forces a status. */
  lemma DefaultPrinterForcesNoStatus(fallback: Fallback, parent: ParentFormat, data: ResultData)
    ensures InitPrinter(NewPrinter(fallback, parent), data).status == None
  {
  }

  /** After `setFailWithHTTPError(fail)`, status 400 is forced exactly when `fail` holds and the data is an error. */
  lemma SetFailDecidesStatus(p: Printer, fail: bool, data: ResultData)
    ensures InitPrinter(SetFailWithHttpError(p, fail), data).status == Some(BadRequest) <==> fail && IsErrorResult(data)
    ensures InitPrinter(SetFailWithHttpError(p, fail), data).handler == InitPrinter(p, data).handler
  {
  }

  /** The last `setFailWithHTTPError` call decides the flag. */
  lemma SetFailLastCallWins(p: Printer, a: bool, b: bool)
    ensures SetFailWithHttpError(SetFailWithHttpError(p, a), b) == SetFailWithHttpError(p, b)
  {
  }

  /** On non-error data only the parent initialises, and no status is forced whatever the flag. */
  lemma SuccessInitOnlyParent(p: Printer, data: ResultData)
    requires !IsErrorResult(data)
    ensures InitPrinter(p, data) == InitEffect(Parent, None)
    ensures InitPrinter(p, data) == InitPrinter(SetFailWithHttpError(p, !p.failWithHttpError), data)
  {
  }

  /** `closePrinter` goes to the same printer `initPrinter` went to. */
  lemma CloseMirrorsInit(p: Printer, data: ResultData)
    ensures ClosePrinter(p, data) == InitPrinter(p, data).handler
  {
  }

  /** On error data `execute` consults neither the file system nor the flag, and emits no header and no body. */
  lemma ErrorExecuteTouchesNothing(p1: Printer, p2: Printer, fe1: string -> bool, fe2: string -> bool, data: ResultData)
    requires IsErrorResult(data)
    ensures Execute(p1, fe1, data) == Execute(p2, fe2, data) == Done(Delegated)
  {
  }

  /** Without `filepath`, `execute` aborts before asking the file system anything. */
  lemma MissingPathAborts(p: Printer, fe1: string -> bool, fe2: string -> bool, data: ResultData)
    requires !IsErrorResult(data) && !Isset(data, "filepath")
    ensures Execute(p, fe1, data) == Execute(p, fe2, data) == DebugDie(NoPathMessage)
  {
  }

  /** A path that does not exist aborts with "<path> not found", and no header is sent. */
  lemma MissingFileAborts(p: Printer, fileExists: string -> bool, data: ResultData)
    requires !IsErrorResult(data) && Isset(data, "filepath")
    requires !fileExists(Interpolate(data["filepath"]))
    ensures Execute(p, fileExists, data) == DebugDie(Interpolate(data["filepath"]) + " not found")
  {
  }

  /** When two calls both stream, they stream the same headers and the same file: the response depends on the data alone. */
  lemma StreamDependsOnlyOnData(p1: Printer, p2: Printer, fe1: string -> bool, fe2: string -> bool, data: ResultData)
    requires Execute(p1, fe1, data).Done? && Execute(p1, fe1, data).value.Streamed?
    requires Execute(p2, fe2, data).Done? && Execute(p2, fe2, data).value.Streamed?
    ensures Execute(p1, fe1, data) == Execute(p2, fe2, data)
  {
  }

  /** A streamed response carries exactly six header lines; read back, they are the six download fields in their fixed order. */
  lemma StreamedHeaderOrder(p: Printer, fileExists: string -> bool, data: ResultData)
    requires Execute(p, fileExists, data).Done? && Execute(p, fileExists, data).value.Streamed?
    ensures var fields := ReadHeaders(Execute(p, fileExists, data).value.headers);
            && |fields| == 6
            && fields[0] == Some((ContentType, Interpolate(Index(data, "mime"))))
            && fields[1] == Some((ContentLength, Interpolate(Index(data, "size"))))
            && fields[2] == Some((ContentDisposition, "attachment; filename=" + Interpolate(Index(data, "filename"))))
            && fields[3] == Some(("Expires", "0"))
            && fields[4] == Some(("Cache-Control", "must-revalidate"))
            && fields[5] == Some(("Pragma", "public"))
  {
    ReadFormatHeaders(DownloadFields(data));
  }

  /** An integer `size` is read back from the `Content-Length` header as that very integer. */
  lemma ContentLengthReadsBack(p: Printer, fileExists: string -> bool, data: ResultData)
    requires Execute(p, fileExists, data).Done? && Execute(p, fileExists, data).value.Streamed?
    requires "size" in data && data["size"].Int?
    ensures SplitHeader(Execute(p, fileExists, data).value.headers[1]).Some?
    ensures SplitHeader(Execute(p, fileExists, data).value.headers[1]).value.0 == ContentLength
    ensures ParseInt(SplitHeader(Execute(p, fileExists, data).value.headers[1]).value.1) == Some(data["size"].i)
  {
    StreamedHeaderOrder(p, fileExists, data);
    IntDecimalIff(data["size"].i, IntToDecimal(data["size"].i));
  }
}
