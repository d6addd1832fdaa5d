/** Request, response and store-reply shapes shared by the three write endpoints. */
module Http {
  import opened JsText

  datatype Request<B> = Request(httpMethod: string, body: B)

  /** `{ message }`, `{ success: true, <payload> }` or `{ message, error }`. */
  datatype ResponseBody<D> = Message(message: string) | Success(payload: D) | ServerError(message: string, error: string)

  datatype Response<D> = Response(status: int, body: ResponseBody<D>)

  /** What a handler does: the response it sends and the one document, if any, it hands to the store. */
  datatype Handled<D, W> = Handled(response: Response<D>, write: Option<W>)

  /** What the content store answers to a create: the new document's id, or the error it raised. */
  datatype StoreReply = Stored(id: string) | StoreFailed(message: string)

  const MethodNotAllowed: string := "Method not allowed"

  function NotAllowed<D, W>(): (h: Handled<D, W>)
    ensures h.response.status == 405 && h.write == None
  {
    Handled(Response(405, Message(MethodNotAllowed)), None)
  }

  function BadRequest<D, W>(message: string): (h: Handled<D, W>)
    ensures h.response.status == 400 && h.write == None
  {
    Handled(Response(400, Message(message)), None)
  }
}
