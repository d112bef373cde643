/**
 * The status-code decisions of `performReadRequest` and `performWriteRequest`
 * (mock.go). The transport itself (`http.Get`, `client.Do`, reading the body)
 * is not modelled: what it returns is given to these functions as a `Response`.
 */
module Http {
  import opened Results

  newtype byte = x: int | 0 <= x < 256

  /** Status codes of section 15.3 of RFC 9110 (Successful 2xx). */
  const StatusOK: int := 200
  const StatusCreated: int := 201
  const StatusAccepted: int := 202

  /**
   * What the transport hands back for one request: the request could not be
   * built, the exchange failed, or a reply arrived with a status code and a
   * body that was either read completely or could not be read.
   */
  datatype Response =
    | InvalidRequest
    | TransportFailure
    | Reply(status: int, body: Option<seq<byte>>)

  /** The errors the agent distinguishes (the Go code builds them with fmt.Errorf). */
  datatype Error =
    | CannotCreateRequest
    | CommunicationError
    | UnexpectedStatus(status: int)
    | UnreadableBody
    | UndecodableBody

  /** A read (GET) is accepted only on 200 OK, a status a write accepts too. */
  predicate ReadAccepted(status: int)
    ensures ReadAccepted(status) ==> WriteAccepted(status)
  {
    status == StatusOK
  }

  /**
   * A write (PUT) is accepted on 200 OK, 201 Created or 202 Accepted, all of
   * them in the Successful (2xx) class.
   */
  predicate WriteAccepted(status: int)
    ensures WriteAccepted(status) ==> 200 <= status < 300
  {
    status == StatusOK || status == StatusCreated || status == StatusAccepted
  }

  /**
   * performReadRequest: a transport failure is a communication error (http.Get
   * also fails there when the address cannot be turned into a request), a
   * status other than 200 is rejected before the body is read, and an
   * unreadable body is an error of its own.
   */
  function ReadRequest(response: Response): (r: Result<seq<byte>, Error>)
    ensures r.Success? <==>
              response.Reply? && ReadAccepted(response.status) && response.body.Some?
    ensures r.Success? ==> r.value == response.body.value
    ensures response.Reply? && !ReadAccepted(response.status) ==>
              r == Failure(UnexpectedStatus(response.status))
    ensures !response.Reply? ==> r == Failure(CommunicationError)
    ensures response.Reply? && ReadAccepted(response.status) && response.body.None? ==>
              r == Failure(UnreadableBody)
  {
    match response
    case InvalidRequest => Failure(CommunicationError)
    case TransportFailure => Failure(CommunicationError)
    case Reply(status, body) =>
      if status != StatusOK then Failure(UnexpectedStatus(status))
      else if body.None? then Failure(UnreadableBody)
      else Success(body.value)
  }

  /**
   * performWriteRequest: the body of the reply is never looked at; only the
   * status decides.
   */
  function WriteRequest(response: Response): (r: Outcome<Error>)
    ensures r.Pass? <==> response.Reply? && WriteAccepted(response.status)
    ensures response.Reply? && !WriteAccepted(response.status) ==>
              r == Fail(UnexpectedStatus(response.status))
    ensures response.InvalidRequest? ==> r == Fail(CannotCreateRequest)
    ensures response.TransportFailure? ==> r == Fail(CommunicationError)
  {
    match response
    case InvalidRequest => Fail(CannotCreateRequest)
    case TransportFailure => Fail(CommunicationError)
    case Reply(status, _) =>
      if status != StatusOK && status != StatusCreated && status != StatusAccepted then
        Fail(UnexpectedStatus(status))
      else
        Pass
  }

  /** A readable reply is accepted by a read exactly when its status is 200. */
  lemma ReadAcceptsOnly200(status: int, body: seq<byte>)
    ensures ReadRequest(Reply(status, Some(body))) == Success(body) <==> status == 200
    ensures status != 200 ==> ReadRequest(Reply(status, Some(body))) == Failure(UnexpectedStatus(status))
  {
  }

  /** A reply is accepted by a write exactly when its status is one of 200, 201, 202. */
  lemma WriteAcceptsOnly2xxTriple(status: int, body: Option<seq<byte>>)
    ensures WriteRequest(Reply(status, body)).Pass? <==> status in {200, 201, 202}
  {
  }
}
