/** The verbosity keyword of the reporter (src/reporting.rs:9-29). */
module Reporting {
  import opened Common

  /** `ReportVerbosity`. */
  datatype ReportVerbosity = Summary | Detailed | Auto

  /** `ReportVerbosity::from_str`: a word and a digit for the two fixed
      verbosities, and `auto` or nothing for the automatic one; anything
      else, including other spellings, is rejected. */
  function ParseVerbosity(s: string): (r: Result<ReportVerbosity, ()>)
    ensures r == Ok(Summary) <==> s == "summary" || s == "0"
    ensures r == Ok(Detailed) <==> s == "detailed" || s == "1"
    ensures r == Ok(Auto) <==> s == "auto" || s == ""
    ensures r.Err? <==> s !in {"summary", "0", "detailed", "1", "auto", ""}
  {
    if s == "summary" then Ok(Summary)
    else if s == "detailed" then Ok(Detailed)
    else if s == "auto" then Ok(Auto)
    else if s == "0" then Ok(Summary)
    else if s == "1" then Ok(Detailed)
    else if s == "" then Ok(Auto)
    else Err(())
  }

  /** The word naming each verbosity. */
  function Keyword(v: ReportVerbosity): string {
    match v
    case Summary => "summary"
    case Detailed => "detailed"
    case Auto => "auto"
  }

  /** Every verbosity is reached from its word, so the parser is onto. */
  lemma ParseKeyword(v: ReportVerbosity)
    ensures ParseVerbosity(Keyword(v)) == Ok(v)
  {
  }

  /** Keywords compare case-sensitively. */
  lemma ParseVerbosityCaseSensitive()
    ensures ParseVerbosity("Summary").Err? && ParseVerbosity("DETAILED").Err? && ParseVerbosity("Auto").Err?
  {
  }
}
