/**
 * Effective-date resolution for one feed item (getItemDate and parseDate
 * in main.go). The date recognizer itself is a foreign library, so it is
 * a parameter: a partial function from text to Unix seconds.
 */
module DateResolver {
  import opened Wrappers
  import opened Codec

  /** A feed item as the feed parser delivers it; an absent date field is the empty string. */
  datatype Item = Item(title: string, link: string, published: string, updated: string)

  /** Why an item has no effective date; either one aborts the whole run. */
  datatype DateFault =
    | NoValidDate                 // neither field is present
    | UnparsableDate(text: string) // a present field the recognizer rejects

  /** The date recognizer: Some(seconds) for text it accepts, None otherwise. */
  type Parser = string -> Option<Int64>

  /** parseDate: the recognizer's verdict, a rejection turned into a fault; there is no fallback date. */
  function ParseDate(parse: Parser, text: string): (r: Result<Int64, DateFault>)
    ensures r.Ok? <==> parse(text).Some?
    ensures r.Ok? ==> parse(text) == Some(r.value)
    ensures r.Err? ==> r.error == UnparsableDate(text)
  {
    match parse(text)
    case Some(t) => Ok(t)
    case None => Err(UnparsableDate(text))
  }

  /**
   * getItemDate: the later of the two dates when both fields are present
   * (published is parsed first and wins a tie), the one date when only one
   * field is present, and a fault when neither is or a present one does
   * not parse.
   */
  function GetItemDate(item: Item, parse: Parser): (r: Result<Int64, DateFault>)
    // a date exists exactly when some field is present and every present field parses
    ensures r.Ok? <==> (item.published != "" || item.updated != "")
                       && (item.published != "" ==> parse(item.published).Some?)
                       && (item.updated != "" ==> parse(item.updated).Some?)
    // the date is that of a present field ...
    ensures r.Ok? ==> (item.published != "" && parse(item.published) == Some(r.value))
                      || (item.updated != "" && parse(item.updated) == Some(r.value))
    // ... and no present field is later
    ensures r.Ok? && item.published != "" ==> parse(item.published).value <= r.value
    ensures r.Ok? && item.updated != "" ==> parse(item.updated).value <= r.value
    // the faults, with published checked before updated
    ensures item.published == "" && item.updated == "" ==> r == Err(NoValidDate)
    ensures item.published != "" && parse(item.published).None? ==> r == Err(UnparsableDate(item.published))
    ensures item.published != "" ==> parse(item.published).Some? ==>
              item.updated != "" && parse(item.updated).None? ==> r == Err(UnparsableDate(item.updated))
    ensures item.published == "" && item.updated != "" && parse(item.updated).None? ==> r == Err(UnparsableDate(item.updated))
  {
    if |item.published| > 0 && |item.updated| > 0 then
      match ParseDate(parse, item.published)
      case Err(e) => Err(e)
      case Ok(published) =>
        match ParseDate(parse, item.updated)
        case Err(e) => Err(e)
        case Ok(updated) =>
          if updated > published then Ok(updated) else Ok(published)
    else if |item.published| > 0 && item.updated == "" then
      ParseDate(parse, item.published)
    else if |item.updated| > 0 && item.published == "" then
      ParseDate(parse, item.updated)
    else
      Err(NoValidDate)
  }
}
