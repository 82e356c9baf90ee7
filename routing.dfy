/**
 * The worker's request routing (my-mcp-server/src/index.ts, lines 111-127):
 * the path of the request URL decides whether the request goes to the
 * server-sent-events transport, to the streamable HTTP transport, or is
 * answered with a 404.
 */
module Routing {

  /** Where a request goes. The transports are mounted at `basePath`. */
  datatype Route =
    | SseTransport(basePath: string)
    | StreamableHttp(basePath: string)
    | Respond(status: int, body: string)

  const SsePath := "/sse"
  const SseMessagePath := "/sse/message"
  const McpPath := "/mcp"

  /**
   * The routing of `fetch`, given `new URL(request.url).pathname`. The paths
   * are compared exactly: no prefix match, no trailing-slash folding.
   */
  function RouteOf(pathname: string): (r: Route)
    ensures r.SseTransport? <==> pathname == SsePath || pathname == SseMessagePath
    ensures r.StreamableHttp? <==> pathname == McpPath
    ensures r.Respond? <==> pathname !in {SsePath, SseMessagePath, McpPath}
    ensures r.SseTransport? ==> r.basePath == SsePath
    ensures r.StreamableHttp? ==> r.basePath == McpPath
    ensures r.Respond? ==> r.status == 404 && r.body == "Not found"
  {
    if pathname == SsePath || pathname == SseMessagePath then SseTransport(SsePath)
    else if pathname == McpPath then StreamableHttp(McpPath)
    else Respond(404, "Not found")
  }
}
