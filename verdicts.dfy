/** The three outcomes the checkers report. */
module Verdicts {
  datatype Verdict = Pass | Fail | NotApplicable
}
