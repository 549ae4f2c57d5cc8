/**
 The result data the download module hands to the raw-file formatter. The
 module adds four keys, `mime`, `filepath`, `filename` and `size`, to the
 result the API has already started (which holds metadata such as `_type`,
 and possibly `requestid` or `warnings`). How the file is found is not part
 of this model.
 */
module Download {
  import opened Optional
  import opened PhpValues
  import opened HeaderLines
  import opened RawFileFormatter
  import opened FormatterProperties

  /** The four keys the download module stores. */
  const DownloadKeys: set<string> := {"mime", "filepath", "filename", "size"}

  /** The result data after a successful download request has added its four entries to `base`. */
  function DownloadPayload(base: ResultData, mime: string, path: string, name: string, size: nat): (data: ResultData)
    ensures data.Keys == base.Keys + DownloadKeys
    ensures data["mime"] == Str(mime) && data["filepath"] == Str(path)
    ensures data["filename"] == Str(name) && data["size"] == Int(size)
    ensures forall k :: k !in DownloadKeys ==> Index(data, k) == Index(base, k)
    ensures IsErrorResult(data) <==> IsErrorResult(base)
  {
    base["mime" := Str(mime)]["filepath" := Str(path)]["filename" := Str(name)]["size" := Int(size)]
  }

  /**
   What the formatter does with a download result. If something earlier
   put an error into the result, every call goes to the fallback. Otherwise
   the MIME type and name are the payload's, no status is forced, and a
   file that is gone aborts.
   */
  lemma DownloadPayloadIsServed(p: Printer, fileExists: string -> bool, base: ResultData,
                                mime: string, path: string, name: string, size: nat)
    ensures var data := DownloadPayload(base, mime, path, name, size);
      IsErrorResult(base) ==>
        && GetMimeType(p, data) == Done(p.errorFallback.mimeType)
        && InitPrinter(p, data).handler == ErrorFallback
        && ClosePrinter(p, data) == ErrorFallback
        && Execute(p, fileExists, data) == Done(Delegated)
    ensures var data := DownloadPayload(base, mime, path, name, size);
      !IsErrorResult(base) ==>
        && GetMimeType(p, data) == Done(Str(mime))
        && (!p.parent.isWrappedHtml && !p.parent.isHtml ==> GetFilename(p, data) == Done(Str(name)))
        && InitPrinter(p, data) == InitEffect(Parent, None)
        && ClosePrinter(p, data) == Parent
    ensures !IsErrorResult(base) && !fileExists(path) ==>
      Execute(p, fileExists, DownloadPayload(base, mime, path, name, size)) == DebugDie(path + " not found")
  {
  }

  /** An error-free download result whose file exists is streamed from its path under the six headers carrying the payload's values. */
  lemma DownloadPayloadIsStreamed(p: Printer, fileExists: string -> bool, base: ResultData,
                                  mime: string, path: string, name: string, size: nat)
    ensures var r := Execute(p, fileExists, DownloadPayload(base, mime, path, name, size));
      !IsErrorResult(base) && fileExists(path) ==>
        && r.Done? && r.value.Streamed?
        && r.value.body == FileBytes(path)
        && |ReadHeaders(r.value.headers)| == 6
        && ReadHeaders(r.value.headers)[0] == Some((ContentType, mime))
        && ReadHeaders(r.value.headers)[1] == Some((ContentLength, IntToDecimal(size)))
        && ReadHeaders(r.value.headers)[2] == Some((ContentDisposition, "attachment; filename=" + name))
        && ReadHeaders(r.value.headers)[3] == Some(("Expires", "0"))
        && ReadHeaders(r.value.headers)[4] == Some(("Cache-Control", "must-revalidate"))
        && ReadHeaders(r.value.headers)[5] == Some(("Pragma", "public"))
  {
    var data := DownloadPayload(base, mime, path, name, size);
    if !IsErrorResult(base) && fileExists(path) {
      StreamedHeaderOrder(p, fileExists, data);
    }
  }

  /** On an error-free download result whose file exists, `Content-Length` reads back as the file size, and different sizes give different responses. */
  lemma DownloadContentLength(p: Printer, fileExists: string -> bool, base: ResultData,
                              mime: string, path: string, name: string, size: nat, other: nat)
    ensures var r := Execute(p, fileExists, DownloadPayload(base, mime, path, name, size));
      !IsErrorResult(base) && fileExists(path) ==>
        && r.Done? && r.value.Streamed?
        && ParseInt(SplitHeader(r.value.headers[1]).value.1) == Some(size as int)
    ensures !IsErrorResult(base) && fileExists(path) && size != other ==>
      Execute(p, fileExists, DownloadPayload(base, mime, path, name, size))
        != Execute(p, fileExists, DownloadPayload(base, mime, path, name, other))
  {
    var d1 := DownloadPayload(base, mime, path, name, size);
    var d2 := DownloadPayload(base, mime, path, name, other);
    if !IsErrorResult(base) && fileExists(path) {
      DownloadPayloadIsStreamed(p, fileExists, base, mime, path, name, size);
      DownloadPayloadIsStreamed(p, fileExists, base, mime, path, name, other);
      ContentLengthReadsBack(p, fileExists, d1);
      if size != other && Execute(p, fileExists, d1) == Execute(p, fileExists, d2) {
        IntToDecimalInjective(size, other);
      }
    }
  }
}
