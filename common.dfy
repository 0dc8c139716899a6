/** Result shapes shared by the scrapers: Python's `None` becomes `Option.None`,
    and an exception that escapes a function becomes `Outcome.Raised`. */
module Common {

  datatype Option<+T> = None | Some(value: T)

  /** The exceptions the season-date code can raise, by the line that raises. */
  datatype PyError =
    | CommaUnpack      // the split at ", " does not give exactly two parts to unpack (ValueError)
    | DashUnpack       // the split at the en dash does not give exactly two parts to unpack (ValueError)
    | NoPatternMatch   // `m.groups()` on a failed `re.match` (AttributeError)
    | IntParse         // `int(year)` on text that is not an integer (ValueError)
    | DateRange        // `date(year, month, day)` out of range (ValueError)
    | NoInfobox        // `infobox.find_all` when the page has no infobox (AttributeError)
    | DateOverflow     // `date + timedelta(days=1)` past 9999-12-31 (OverflowError)

  datatype Outcome<+T> = Value(value: T) | Raised(error: PyError)
}
