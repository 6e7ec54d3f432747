/**
 * `CustomErrorController.handleError`: the `/error` endpoint. When the
 * request carries an error status code it is turned into a
 * `ResponseStatusException`: 403 and 404 keep their status with a French
 * message, every other code becomes 500. Without a status code nothing is
 * thrown.
 */
module ErrorController {
  import opened Domain

  const ForbiddenPage := ResponseStatus(Forbidden, "Vous n'\U{ea}tes pas autoris\U{e9} \U{e0} consulter cette page")
  const MissingPage := ResponseStatus(NotFound, "La page que vous cherchez n'existe pas")
  const InternalError := ResponseStatus(InternalServerError, "Une erreur interne est survenue")

  /** `handleError`, given the request's error status code already read as an integer (or absent). */
  function HandleError(status: Option<int>): (r: Outcome<ServiceError>)
    ensures r.Pass? <==> status.None?
    ensures r.Fail? ==> r.error.ResponseStatus?
  {
    match status
    case None => Pass
    case Some(code) =>
      if code == 403 then Fail(ForbiddenPage)
      else if code == 404 then Fail(MissingPage)
      else Fail(InternalError)
  }

  /**
   * The classifier: 403 and 404 are raised with their own status code, any
   * other code is raised as 500, and each status always carries its one message.
   */
  lemma HandleErrorClassifies(code: int)
    ensures var r := HandleError(Some(code));
      && r.Fail? && r.error.ResponseStatus?
      && (code == 403 || code == 404 ==> r.error.status.Code() == code)
      && (code != 403 && code != 404 ==> r.error.status.Code() == 500)
      && r.error == (match r.error.status
                     case Forbidden => ForbiddenPage
                     case NotFound => MissingPage
                     case InternalServerError => InternalError)
  {
  }

  /** Handling the status an error was raised with raises that same error again. */
  lemma HandleErrorIsStable(code: int)
    ensures var r := HandleError(Some(code));
      r.Fail? && HandleError(Some(r.error.status.Code())) == r
  {
    var r := HandleError(Some(code));
    HandleErrorClassifies(code);
    assert r.error.status.Code() == 403 || r.error.status.Code() == 404 || r.error.status.Code() == 500;
  }

  /** Codes other than 403 and 404 are indistinguishable to the handler, client errors included. */
  lemma OtherCodesCollapse(a: int, b: int)
    requires a != 403 && a != 404 && b != 403 && b != 404
    ensures HandleError(Some(a)) == HandleError(Some(b)) == Fail(InternalError)
  {
  }
}
