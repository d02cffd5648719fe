/**
 * What a handler writes back: the JSON response structures, plus the two
 * outcomes in which no JSON is written (a panic that is not recovered, and
 * a handler that returns without writing).
 */
module Responses {

  datatype Status = Success | Exception

  /**
   * One passage node. `previous` and `next` are the JSON slices: `[]` when
   * the field is left unset, `[u]` when set (possibly to the empty string).
   */
  datatype Node = Node(urn: string, text: string, previous: seq<string>, next: seq<string>, sequence: int)

  /** An empty `message` stands for the omitted field. */
  datatype Response =
    | NodeResponse(requestUrn: seq<string>, status: Status, service: string, message: string, nodes: seq<Node>)
    | UrnResponse(requestUrn: seq<string>, status: Status, service: string, message: string, urns: seq<string>)
    | CatalogResponse(status: Status, service: string, message: string, urns: seq<string>)

  datatype Reply =
    | Reply(response: Response)
    | Aborted   // a runtime panic that no `recover` catches: no JSON is written
    | Silent    // the handler returns without writing anything

  /** The three revisions of the service. */
  datatype Revision = V01 | V03 | V08

  const ErrorEncountered := "Error encountered. Please contact development team and send in current logfile!"

  /** A deferred `recover`: a panic becomes the generic Exception response. */
  function Recovered(reply: Reply, requestUrn: seq<string>, service: string): (r: Reply)
    ensures !r.Aborted?
    ensures !reply.Aborted? ==> r == reply
    ensures reply.Aborted? ==> r.Reply? && r.response.status == Exception && r.response.message == ErrorEncountered
  {
    if reply.Aborted? then Reply(NodeResponse(requestUrn, Exception, service, ErrorEncountered, []))
    else reply
  }
}
