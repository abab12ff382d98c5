/** `validateReportData`, the guard in front of the report-analysis route. */
module ReportValidation {
  import opened JsText

  /** The values a request body field can hold, as far as the guard tells
      them apart. Numbers are kept as integers: only whether one is zero matters. */
  datatype JsValue =
    | Undefined
    | Null
    | Bool(b: bool)
    | Number(n: int)
    | NaN
    | Str(s: string)
    | Object

  /** JavaScript's truthiness (every object is truthy). */
  predicate Truthy(v: JsValue)
  {
    match v
    case Undefined => false
    case Null => false
    case Bool(b) => b
    case Number(n) => n != 0
    case NaN => false
    case Str(s) => s != ""
    case Object => true
  }

  datatype Validation = Validation(isValid: bool, message: string)

  const ReportDataInvalid := "Report data must be a non-empty string"

  /** A report passes exactly when it is a string with a non-whitespace
      character; a rejection carries the one message the guard has. */
  function ValidateReportData(reportData: JsValue): (r: Validation)
    ensures r.isValid <==> reportData.Str? && !IsBlank(reportData.s)
    ensures r.isValid ==> r.message == ""
    ensures !r.isValid ==> r.message == ReportDataInvalid
  {
    TrimEmptyIffBlank(if reportData.Str? then reportData.s else "");
    if !Truthy(reportData) || !reportData.Str? || |Trim(reportData.s)| == 0 then
      Validation(false, ReportDataInvalid)
    else
      Validation(true, "")
  }
}
