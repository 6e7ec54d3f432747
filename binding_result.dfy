/**
 * Spring's `BindingResult`, reduced to what the account services use: an
 * append-only list of field errors, `rejectValue` and `hasErrors`. The same
 * object arrives already holding the errors of the form's bean validation.
 */
module Binding {
  import opened Domain

  /** Errors appended in three rounds form one appended run. */
  lemma AppendRounds(before: seq<FieldError>, a: seq<FieldError>, b: seq<FieldError>, c: seq<FieldError>)
    ensures before + a + b + c == before + (a + b + c)
  {
  }

  class BindingResult {
    var errors: seq<FieldError>

    constructor (initial: seq<FieldError>)
      ensures errors == initial
    {
      errors := initial;
    }

    /** Records one error on `field`; the errors already present stay, in order. */
    method RejectValue(field: string, code: string, message: string)
      modifies this
      ensures errors == old(errors) + [FieldError(field, code, message)]
    {
      errors := errors + [FieldError(field, code, message)];
    }

    /** `hasErrors`: some error is recorded, whether bound before the call or rejected during it. */
    function HasErrors(): (b: bool)
      reads this
      ensures b <==> exists e :: e in errors
    {
      if errors == [] then false
      else
        assert errors[0] in errors;
        true
    }
  }
}
