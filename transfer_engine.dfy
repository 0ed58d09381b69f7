/**
 * `SecureTransfer` (mesh_pulse/core/transfer.py): the transfer engine the
 * application uses, one receiving `FileServer` and one sending `FileClient`
 * sharing the same key.
 */
module Engine {
  import opened Wrappers
  import opened Records
  import opened Receive
  import opened Send

  /** The `filepath` argument of `send_file`: one path, or a list of paths. */
  datatype Target = OnePath(path: string) | PathList(paths: seq<string>)

  /** `[filepath] if isinstance(filepath, str) else filepath`. */
  function Paths(target: Target): (paths: seq<string>)
    ensures target.OnePath? ==> paths == [target.path]
    ensures target.PathList? ==> paths == target.paths
  {
    match target
    case OnePath(p) => [p]
    case PathList(ps) => ps
  }

  class SecureTransfer {
    const server: FileServer
    const client: FileClient

    /** Both ends use the one key `load_or_generate_key` returned. */
    constructor (crypto: Crypto, receiveDir: map<string, Bytes>)
      ensures fresh(server) && fresh(client)
      ensures server.crypto == crypto && client.crypto == crypto
      ensures server.transfers == [] && server.files == receiveDir && client.transfers == [] && client.launched == []
    {
      server := new FileServer(crypto, receiveDir);
      client := new FileClient(crypto);
    }

    /** `send_file`: one `send` per path, in order, the message with the first path only. */
    method SendFile(peerIp: string, target: Target, message: Option<string>)
      modifies client
      ensures client.launched == old(client.launched) + FanOut(peerIp, Paths(target), message)
      ensures client.transfers == old(client.transfers)
    {
      var paths := Paths(target);
      var i := 0;
      while i < |paths|
        invariant 0 <= i <= |paths|
        invariant |client.launched| == |old(client.launched)| + i
        invariant client.launched[..|old(client.launched)|] == old(client.launched)
        invariant forall j :: 0 <= j < i ==>
          client.launched[|old(client.launched)| + j] == SendRequest(peerIp, paths[j], if j == 0 then message else None)
        invariant client.transfers == old(client.transfers)
      {
        var msg := if i == 0 then message else None;
        client.Send(peerIp, paths[i], msg);
        i := i + 1;
      }
    }

    /** `get_transfers`: the server's records (received files) followed by the client's (sent files). */
    function GetTransfers(): (all: seq<TransferInfo>)
      reads this, server, client
      ensures |all| == |server.transfers| + |client.transfers|
      ensures all[..|server.transfers|] == server.GetTransfers()
      ensures all[|server.transfers|..] == client.GetTransfers()
    {
      server.GetTransfers() + client.GetTransfers()
    }
  }
}
