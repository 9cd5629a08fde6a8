/** Both sides of the proxy choose the body's framing from the same response, by
    two separately written decision lists. */
module FramingChoice {
  import opened Bytes
  import opened WriterModel

  // upgrade: an HTTP/1.1 request that carries an Upgrade header. ignores: the session
  // is set to drop informational headers other than 100.
  datatype Request = Request(head: bool, upgrade: bool, ignores: bool)

  // chunked: Transfer-Encoding is exactly `chunked`; length: a usable Content-Length.
  datatype Response = Response(status: nat, http11: bool, chunked: bool, length: Option<nat>)

  predicate Informational(status: nat) {
    100 <= status < 200
  }

  // Informational headers other than 101 announce another header.
  predicate Interim(resp: Response) {
    Informational(resp.status) && resp.status != 101
  }

  // Never sent on, whatever the session's state.
  predicate Ignored(req: Request, resp: Response) {
    req.ignores && Informational(resp.status) && resp.status != 100
  }

  function Announced(resp: Response): Mode {
    if resp.chunked then Chunks
    else if resp.length.Some? then Length(resp.length.value)
    else ToEnd
  }

  // set_response_body_reader; None leaves the reader unset.
  function ReadMode(req: Request, resp: Response): Option<Mode> {
    if req.head then Some(Length(0))
    else if resp.status == 101 then Some(if req.upgrade then ToEnd else Announced(resp))
    else if Informational(resp.status) then None
    else if resp.status == 204 || resp.status == 304 then Some(Length(0))
    else Some(Announced(resp))
  }

  predicate SessionUpgrade(req: Request, resp: Response) {
    req.upgrade && resp.http11 && resp.status == 101
  }

  // set_response_body_writer; None leaves the writer as it was.
  function WriteMode(req: Request, resp: Response): Option<Mode> {
    if resp.status == 204 || resp.status == 304 || req.head then Some(Length(0))
    else if Interim(resp) then None
    else if SessionUpgrade(req, resp) then Some(ToEnd)
    else Some(Announced(resp))
  }

  /** The two lists agree for every request and response but one case: an upgrade
      answered with 101 under a version other than 1.1, when the response also
      announces a length or chunks. */
  lemma ModesAgreeExactly(req: Request, resp: Response)
    ensures ReadMode(req, resp) == WriteMode(req, resp) <==>
      !(resp.status == 101 && req.upgrade && !req.head && !resp.http11 && !Announced(resp).ToEnd?)
    ensures !Informational(resp.status) ==>
      ReadMode(req, resp).Some? && ReadMode(req, resp) == WriteMode(req, resp)
  {
  }
}
