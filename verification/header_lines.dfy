/**
 Raw HTTP header lines as the formatter hands them to PHP's `header()`,
 and the reading that splits such a line back: the field name runs up
 to the first colon, the field value is the rest after one optional
 space.
 */
module HeaderLines {
  import opened Optional

  /** The line `"<name>: <value>"` passed to `header()`. */
  function FormatHeader(name: string, value: string): string
  {
    name + ": " + value
  }

  /** The position of the first colon of `s`, if there is one. */
  function FirstColon(s: string): (r: Option<nat>)
    ensures r.None? <==> ':' !in s
    ensures r.Some? ==> r.value < |s| && s[r.value] == ':' && ':' !in s[..r.value]
    decreases |s|
  {
    if |s| == 0 then None
    else if s[0] == ':' then Some(0)
    else match FirstColon(s[1..])
      case None => None
      case Some(k) =>
        assert s[..k + 1] == [s[0]] + s[1..][..k];
        Some(k + 1)
  }

  /** `s` without one leading space, if it has one. */
  function DropSpace(s: string): string
  {
    if |s| > 0 && s[0] == ' ' then s[1..] else s
  }

  /** Reads a header line back into its name and value; a line without a colon is not a header. */
  function SplitHeader(line: string): Option<(string, string)>
  {
    match FirstColon(line)
    case None => None
    case Some(k) => Some((line[..k], DropSpace(line[k + 1..])))
  }

  /** The header lines for a list of name/value fields, in the same order. */
  function FormatHeaders(fields: seq<(string, string)>): seq<string>
  {
    seq(|fields|, i requires 0 <= i < |fields| => FormatHeader(fields[i].0, fields[i].1))
  }

  /** Reads every line of a header list. */
  function ReadHeaders(lines: seq<string>): seq<Option<(string, string)>>
  {
    seq(|lines|, i requires 0 <= i < |lines| => SplitHeader(lines[i]))
  }

  /** A formatted line reads back as exactly the name and value it was made from, whatever the value holds, provided the name has no colon. */
  lemma SplitFormatHeader(name: string, value: string)
    requires ':' !in name
    ensures SplitHeader(FormatHeader(name, value)) == Some((name, value))
  {
    var line := FormatHeader(name, value);
    assert line[|name|] == ':';
    assert line[..|name|] == name;
    var k := FirstColon(line).value;
    assert k == |name|;
    assert line[k + 1..] == [' '] + value;
  }

  /** Formatting a list of fields and reading it back yields each field in place. */
  lemma ReadFormatHeaders(fields: seq<(string, string)>)
    requires forall i :: 0 <= i < |fields| ==> ':' !in fields[i].0
    ensures ReadHeaders(FormatHeaders(fields)) == seq(|fields|, i requires 0 <= i < |fields| => Some(fields[i]))
  {
    forall i | 0 <= i < |fields|
      ensures ReadHeaders(FormatHeaders(fields))[i] == Some(fields[i])
    {
      SplitFormatHeader(fields[i].0, fields[i].1);
    }
  }
}
