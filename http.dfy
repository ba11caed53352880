/** The outcome of one HTTP request, as the service's success callbacks see
    it. Transport and URLs are not modelled: a request either delivers the
    server's response body or fails with a status. */
module Http {

  datatype HttpError = HttpError(status: int)

  datatype Response<T> = Ok(body: T) | Failed(error: HttpError)
}
