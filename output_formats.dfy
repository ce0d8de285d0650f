/** The two document formats a bin can hold and the seed document of each. */
module OutputFormats {
  import opened PyValues

  datatype Format = Json | Csv

  /** `output_data_formats`: the accepted values of the `output_format` parameter. */
  const FormatNames: seq<Value> := [Str("json"), Str("csv")]

  /** The parameter value that selects a format. */
  function FormatName(f: Format): Value
  {
    match f
    case Json => Str("json")
    case Csv => Str("csv")
  }

  /** The format a validated `output_format` value selects. */
  function FormatOf(v: Value): (f: Format)
    requires v in FormatNames
    ensures FormatName(f) == v
  {
    if v == Str("json") then Json else Csv
  }

  /** `output_data_formats_empty_string`: the content a new bin's document is
    * created with, also used to recognise the first append. */
  function EmptyDocument(f: Format): string
  {
    match f
    case Json => "[]\n"
    case Csv => "date_created\n"
  }
}
