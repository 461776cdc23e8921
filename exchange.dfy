/** api/connection/Exchange.java and DestinationDto.java: a client connection paired with the server connection it is relayed to. */
module Exchanges {
  import opened General
  import opened Schemes
  import opened Connections

  /** `DestinationDto`: where a route sends its traffic. */
  datatype Destination = Destination(port: Int32, host: string, scheme: Scheme)

  class Exchange {
    const client: Connection
    const server: Connection
    const destination: Destination

    /** Two distinct connections over two distinct sockets. */
    ghost predicate Valid()
      reads this, client, server, client.socket, server.socket
    {
      client.Valid() && server.Valid() && client != server && client.socket != server.socket
    }

    constructor (client: Connection, server: Connection, destination: Destination)
      requires client.Valid() && server.Valid() && client != server && client.socket != server.socket
      ensures Valid()
      ensures this.client == client && this.server == server && this.destination == destination
    {
      this.client := client;
      this.server := server;
      this.destination := destination;
    }

    /**
     * `close()`: the client connection is closed and then, in the `finally`, the server
     * connection, also when a callback of the client connection threw. Both sockets end up
     * closed; each connection runs its callbacks at most once, and `ok` is false when a callback
     * of either threw. A connection that was already closed is left alone, so after a close with
     * `ok` a second close changes nothing.
     */
    method Close() returns (ok: bool)
      requires Valid()
      modifies client`isClosed, client`invoked, client.socket`closed
      modifies server`isClosed, server`invoked, server.socket`closed
      ensures Valid()
      ensures client.socket.closed && server.socket.closed
      ensures client.isClosed == (old(client.isClosed) || !AnyThrows(client.closeables))
      ensures server.isClosed == (old(server.isClosed) || !AnyThrows(server.closeables))
      ensures client.invoked == old(client.invoked) + (if old(client.isClosed) then [] else Run(client.closeables))
      ensures server.invoked == old(server.invoked) + (if old(server.isClosed) then [] else Run(server.closeables))
      ensures ok == (client.isClosed && server.isClosed)
    {
      var clientOk := client.Close();
      var serverOk := server.Close();
      ok := clientOk && serverOk;
    }
  }
}
