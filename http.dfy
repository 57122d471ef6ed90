/**
 * The shape of every JSON reply the controllers write: a success carries
 * the data, a failure carries a `status` word and the error message. By the
 * controllers' convention a client error is answered with status "fail"
 * and a server-side error with status "error".
 */
module Http {
  const StatusOK: int := 200
  const StatusCreated: int := 201
  const StatusNoContent: int := 204
  const StatusBadRequest: int := 400
  const StatusNotFound: int := 404
  const StatusConflict: int := 409
  const StatusBadGateway: int := 502

  datatype Reply<T> =
    | Success(code: int, data: T)
    | Failure(code: int, status: string, message: string)

  /** A client error: `{"status": "fail", "message": ...}`. */
  function Fail<T>(code: int, message: string): Reply<T> {
    Failure(code, "fail", message)
  }

  /** A failure of the layer below: 502 with `{"status": "error", ...}`. */
  function BadGateway<T>(message: string): Reply<T> {
    Failure(StatusBadGateway, "error", message)
  }

  /** The convention: "fail" exactly for the 4xx codes, "error" otherwise. */
  predicate StatusMatchesCode<T>(reply: Reply<T>) {
    reply.Failure? ==> (reply.status == "fail" <==> 400 <= reply.code < 500)
  }
}
