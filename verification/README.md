# Raw-file API formatter, modelled in Dafny

This project models `ApiFormatRawFile`, the MediaWiki API formatter of the
FileApi extension that answers a download request with the bytes of a file
instead of a JSON or XML envelope. The formatter reads the API result data
and works in one of two modes:

- **error mode**, when the data has a non-null `error` or `errors` entry: the
  printer calls go to a fallback printer (the one content negotiation picked
  for the request), and `initPrinter` forces HTTP status 400 when the
  formatter was told to fail with an HTTP error;
- **file mode** otherwise: the MIME type, the filename, six download headers
  and the file body are taken from the `mime`, `filename`, `filepath` and
  `size` entries, and the request ends after the body.

The model is functional. Every printer method is a pure function of the
formatter state (`Printer`: the fallback printer's answers, what the base
formatter supplies, and the HTTP-error flag) and of the result data (a map
from keys to PHP values). Side effects come back as values:

- the status `initPrinter` forces, and which printer it delegates to;
- the header lines of `execute`, and its body `FileBytes(path)`, which stands
  for whatever `readfile(path)` writes;
- `DebugDie(message)` for `ApiBase::dieDebug`.

`file_exists` is a parameter `fileExists: string -> bool`.

Files:

- `optional.dfy`: `Option`.
- `php_values.dfy` (`PhpValues`): PHP values and `isset`. It also holds
  string interpolation `"$v"`, including how an integer is written in
  decimal, and `ParseInt`, which reads a decimal back.
- `header_lines.dfy` (`HeaderLines`): the `"Name: value"` lines given to
  `header()`. `SplitHeader` splits a line back into name and value: the name
  runs up to the first colon, and the value follows after one optional space.
- `raw_file_formatter.dfy` (`RawFileFormatter`): the formatter itself.
- `formatter_properties.dfy` (`FormatterProperties`): lemmas that relate the
  formatter's operations to each other.
- `download.dfy` (`Download`): the four entries the download module adds
  to its API result, and what the formatter does with that result.

PHP details kept as the code has them:

- `isset` is false for a key that is present with value null.
- `$data['filename']`, `$data['mime']` and `$data['size']` are read in
  `execute` without an `isset` check. A missing entry reads as null and is
  written into its header as the empty string.
- `getFilename` sends only the `error` key to the fallback. A payload with
  only `errors` gets the base formatter's name or its own `filename`.
  The MIME type, `initPrinter`, `closePrinter` and `execute` treat `errors`
  as an error.
- The base formatter's name (`parent::getFilename()`) may call back into
  this formatter's `getMimeType`. The model hands it the outcome of that
  call, so on `errors`-only data the name can depend on the fallback's MIME
  type, and on data without `mime` it can abort.

Behaviour of the code worth noting:

- A path that names no existing file or directory aborts through
  `dieDebug` ("<path> not found"), the same primitive as a missing key.
- `Content-Disposition` uses the raw `filename` entry, not `getFilename()`.
- `Content-Length` is whatever `size` holds. It is never compared with the
  number of bytes streamed, so the model makes no claim about that.

## Model

| member | source | states |
|---|---|---|
| RawFileFormatter.NewPrinter | includes/api/ApiFormatRawFile.php:10-21 | a new formatter keeps the fallback it was given and does not fail with an HTTP error |
| RawFileFormatter.SetFailWithHttpError | includes/api/ApiFormatRawFile.php:113-115 | the flag becomes the argument and the rest of the formatter is unchanged |
| RawFileFormatter.IsErrorResult | includes/api/ApiFormatRawFile.php:26 | error mode holds exactly when reading `error` or `errors` gives a non-null value |
| RawFileFormatter.GetMimeType | includes/api/ApiFormatRawFile.php:23-35 | in error mode the fallback's MIME type unchanged (possibly null); otherwise aborts exactly when `mime` is unset, and else is the non-null `data['mime']` itself |
| RawFileFormatter.ParentFilename | includes/api/ApiFormatRawFile.php:42 | the base formatter's name is a string, and it is produced exactly when the base formatter's naming of the late-bound MIME outcome succeeds |
| RawFileFormatter.GetFilename | includes/api/ApiFormatRawFile.php:37-46 | precedence: `error` set gives the fallback's name; otherwise an HTML mode or an unset `filename` gives the base formatter's name; otherwise `data['filename']`; a produced name is never null |
| RawFileFormatter.InitPrinter | includes/api/ApiFormatRawFile.php:48-58 | the fallback initialises exactly on error data; status 400 is forced if and only if the data is an error and the flag is on, and no other status is ever forced |
| RawFileFormatter.ClosePrinter | includes/api/ApiFormatRawFile.php:60-67 | the fallback closes exactly on error data |
| RawFileFormatter.Execute | includes/api/ApiFormatRawFile.php:69-102 | delegates exactly on error data; aborts exactly when `filepath` is unset or names no existing file or directory; a streamed response has six headers and a body that is whatever `readfile` writes for the checked `filepath` |
| FormatterProperties.ErrorModeByKeyPresence | includes/api/ApiFormatRawFile.php:26-27 | on two results that agree on `error` and `errors`, init, close and execute make the same delegation choice whatever the printers and file systems, and in error mode each printer's MIME type is its fallback's |
| FormatterProperties.ErrorKeyForcesErrorMode | includes/api/ApiFormatRawFile.php:39-40 | adding a non-null `error` entry to any data sends all five operations to the fallback, filename included |
| FormatterProperties.SuccessMimeFromData | includes/api/ApiFormatRawFile.php:30-34 | outside error mode the MIME type does not depend on the formatter: `data['mime']` when set, the "No MIME type" abort otherwise |
| FormatterProperties.FilenameSeesErrorsOnlyThroughMime | includes/api/ApiFormatRawFile.php:39-45 | the `errors` entry reaches the filename only through the late-bound MIME type: if removing it leaves the MIME type unchanged, the filename is unchanged |
| FormatterProperties.ErrorsOnlyAsymmetry | includes/api/ApiFormatRawFile.php:26-45 | with `errors` but no `error`, the MIME type is the fallback's, the fallback's own filename is never used, and the name is the data's `filename` or the base formatter's name for the fallback's MIME type |
| FormatterProperties.HtmlModeOverridesFilename | includes/api/ApiFormatRawFile.php:41-42 | outside error mode either HTML mode gives the base formatter's name, whether a `filename` entry is present or absent |
| FormatterProperties.FilenameFromDataWhenPlain | includes/api/ApiFormatRawFile.php:41-45 | outside error mode and HTML modes the `filename` entry is used when set, the base formatter's name otherwise |
| FormatterProperties.DefaultPrinterForcesNoStatus | includes/api/ApiFormatRawFile.php:11 | a new formatter never forces a status, on any data |
| FormatterProperties.SetFailDecidesStatus | includes/api/ApiFormatRawFile.php:113-115 | after setting the flag to `fail`, status 400 is forced exactly when `fail` holds on error data, and the delegation is unchanged |
| FormatterProperties.SetFailLastCallWins | includes/api/ApiFormatRawFile.php:113-115 | of two flag settings the later one decides |
| FormatterProperties.SuccessInitOnlyParent | includes/api/ApiFormatRawFile.php:55-57 | on non-error data only the base formatter initialises, no status is forced, and the flag makes no difference |
| FormatterProperties.CloseMirrorsInit | includes/api/ApiFormatRawFile.php:60-67 | close goes to the same printer init went to |
| FormatterProperties.ErrorExecuteTouchesNothing | includes/api/ApiFormatRawFile.php:71-74 | on error data execute delegates whatever the file system and flag, so no header and no body are produced |
| FormatterProperties.MissingPathAborts | includes/api/ApiFormatRawFile.php:76-78 | without `filepath` execute aborts with the same message whatever the file system holds |
| FormatterProperties.MissingFileAborts | includes/api/ApiFormatRawFile.php:80-85 | a path that does not exist aborts with "<path> not found", before any header |
| RawFileFormatter.DownloadFields | includes/api/ApiFormatRawFile.php:87-96 | six fields named Content-Type, Content-Length, Content-Disposition, Expires, Cache-Control, Pragma, in order and colon-free, the first three carrying the interpolated `mime`, `size` and `attachment; filename=<filename>` |
| FormatterProperties.StreamDependsOnlyOnData | includes/api/ApiFormatRawFile.php:87-99 | two executions that both stream give the same headers and body whatever the formatter and file system |
| FormatterProperties.StreamedHeaderOrder | includes/api/ApiFormatRawFile.php:87-96 | read back, the streamed headers are exactly Content-Type, Content-Length, Content-Disposition, Expires: 0, Cache-Control: must-revalidate, Pragma: public, in that order, with the data's values |
| FormatterProperties.ContentLengthReadsBack | includes/api/ApiFormatRawFile.php:88-92 | an integer `size` reads back from the Content-Length header as that integer |
| HeaderLines.SplitFormatHeader | includes/api/ApiFormatRawFile.php:91-96 | a `"Name: value"` line splits back into the name and value it was made from, for any colon-free name |
| HeaderLines.ReadFormatHeaders | includes/api/ApiFormatRawFile.php:91-96 | a list of fields formatted as header lines reads back field by field, in order |
| PhpValues.Isset | includes/api/ApiFormatRawFile.php:26-41 | `isset` holds exactly when reading the key gives a non-null value |
| PhpValues.Interpolate | includes/api/ApiFormatRawFile.php:84-93 | a string interpolates as itself, an integer as a string `ParseInt` reads back to it, and exactly null, false and the empty string give the empty string |
| PhpValues.IntToDecimal | includes/api/ApiFormatRawFile.php:92 | the written form of an integer reads back as that integer |
| PhpValues.NatToDecimal | includes/api/ApiFormatRawFile.php:92 | the decimal form of a number is a non-empty digit string without a leading zero, and is "0" only for zero |
| PhpValues.DecimalRoundTrip | includes/api/ApiFormatRawFile.php:92 | reading a number's decimal form gives the number back |
| PhpValues.CanonicalDecimalRoundTrip | includes/api/ApiFormatRawFile.php:92 | a digit string without a leading zero is the decimal form of the number it denotes |
| PhpValues.IntDecimalIff | includes/api/ApiFormatRawFile.php:92 | `ParseInt(s)` is `i` if and only if `s` is how PHP writes `i` |
| PhpValues.IntToDecimalInjective | includes/api/ApiFormatRawFile.php:92 | distinct integers are written differently |
| Download.DownloadPayload | includes/api/Download.php:97-101 | adding the four entries to the module's result sets `mime`, `filepath`, `filename` and `size`, leaves every other entry as it was, and makes an error result exactly when the result already was one |
| Download.DownloadPayloadIsServed | includes/api/Download.php:97-101 | for any result the module adds its entries to: an error result goes to the fallback in every call; otherwise the payload's MIME type and name are used, no status is forced, and a missing file aborts with "<path> not found" |
| Download.DownloadPayloadIsStreamed | includes/api/Download.php:97-101 | an error-free result the module adds its entries to, whose file exists, is streamed from the payload's path under the six headers, read back as Content-Type, Content-Length, Content-Disposition, Expires, Cache-Control and Pragma carrying the payload's MIME type, size and name |
| Download.DownloadContentLength | includes/api/ApiFormatRawFile.php:88-92 | for any error-free result the module adds its entries to, with the file present, Content-Length reads back as the size, and different sizes give different responses |

## Left out

- The constructor's content negotiation (`createPrinterByName` for the
  request's `format`) is left out. The fallback printer is a value given at
  construction, `Fallback`, holding its MIME type and filename.
- The fallback printer's and the base formatter's own output are left out.
  This covers `parent::initPrinter`, `parent::closePrinter`, `getIsHtml`,
  `getIsWrappedHtml` and the fallback's `execute`. They appear only as which
  printer a call goes to (`Handler`) and as given values (`ParentFormat`).
- `ApiFormatBase::getFilename` is not part of this model. `ParentFormat`
  stands for it with an arbitrary function, `filenameFor`, of the outcome of
  this formatter's `getMimeType`. Nothing is promised about the names it
  chooses.
- `header()`, `readfile()`, `exit` and `file_exists` are real I/O. Headers
  are returned as a list of lines. The body is the marker `FileBytes(path)` for
  whatever `readfile(path)` writes.
  A `Streamed` result stands for the `exit` that ends the request.
- The `__METHOD__` prefix of `dieDebug` messages is left out. Only the
  message text is kept.
- Float values are not modelled. Neither is PHP's 64-bit integer range:
  `Int` is unbounded.
- RawFileFormatter.Execute: a failing `readfile` is not modelled. `file_exists`
  also holds for a directory, and what `readfile` returns is ignored, so a
  directory, an unreadable file or a file removed after the check still gets
  all six headers, `Content-Length` included, before a short or empty body.
  `FileBytes(path)` only names the path read; it says nothing of the bytes.
- RawFileFormatter.Execute: an array `filepath` is interpolated as "Array",
  as string interpolation does. PHP 8 instead raises a TypeError when
  `file_exists` is given an array.
- Download.DownloadPayload: `size` is a natural number. The case where
  `File::getSize()` returns false is left out. That case still reaches
  `Execute` as `Bool(false)` and gives an empty Content-Length.
- Title resolution, permission checks and file lookup in
  `includes/api/Download.php` are left out. They are calls into MediaWiki
  services, and only the four keys the module stores are modelled.
- Download.DownloadPayload: the entries the API result already holds
  (`_type`, `requestid`, `warnings` and so on) come from `ApiResult` and
  `ApiMain`, which are not part of this model, so the result before the
  module's additions is an arbitrary map. `ApiResult::addValue` refuses to
  overwrite an existing key; the model simply sets the four keys, which a
  fresh result does not hold.
- `SplitHeader` is the model's own reading of a header line. It drops one
  space after the colon, not all leading whitespace.
