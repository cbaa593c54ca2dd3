/**
 * `isError` and `raiseError`: telling a PEAR error apart from other values,
 * optionally by its message or code, and reporting a failure as a warning
 * with the result `false`.
 */
module Errors {

  /** A value handed to the error helpers: a PEAR error, a string, or anything else. */
  datatype Value = PearError(message: string, code: int) | Str(s: string) | Other

  /** The optional `$code` argument of `isError`. */
  datatype Code = NoCode | StrCode(text: string) | IntCode(n: int)

  /**
   * `isError($data, $code)`: only a PEAR error qualifies; a string code
   * must equal its message, an integer code its code.
   */
  function IsError(data: Value, code: Code): (r: bool)
    ensures r ==> data.PearError?
    ensures data.PearError? && code.NoCode? ==> r
    ensures code.StrCode? ==> (r <==> data.PearError? && data.message == code.text)
    ensures code.IntCode? ==> (r <==> data.PearError? && data.code == code.n)
  {
    if !data.PearError? then false
    else
      match code
      case NoCode => true
      case StrCode(text) => data.message == text
      case IntCode(n) => data.code == n
  }

  /** Asking about a message or a code narrows the plain test: a value that passes either is an error. */
  lemma QualifiedIsError(data: Value, code: Code)
    requires IsError(data, code)
    ensures IsError(data, NoCode)
  {
  }

  /** Every PEAR error passes the test for its own message and for its own code, and for no other. */
  lemma ErrorMatchesItself(message: string, code: int, other: Code)
    ensures IsError(PearError(message, code), StrCode(message))
    ensures IsError(PearError(message, code), IntCode(code))
    ensures other.StrCode? && other.text != message ==> !IsError(PearError(message, code), other)
    ensures other.IntCode? && other.n != code ==> !IsError(PearError(message, code), other)
  {
  }

  /** What `raiseError` does: the warning it triggers and what it returns. */
  datatype Raised = Raised(warning: string, ret: bool)

  /**
   * `raiseError($error)`: warns with the error's message (or the string
   * itself) and returns false. The text of any other value is not modelled.
   */
  function RaiseError(error: Value): (r: Raised)
    ensures !r.ret
    ensures IsError(error, NoCode) ==> r.warning == error.message
    ensures error.Str? ==> r.warning == error.s
  {
    if IsError(error, NoCode) then Raised(error.message, false)
    else if error.Str? then Raised(error.s, false)
    else Raised("", false)
  }
}
