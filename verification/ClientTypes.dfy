/** The client's descriptions of users, nodes, networks and servers. */
module ClientTypes {
  import opened Bytes

  datatype User = User(username: bytes, email: bytes)

  datatype MyUser = MyUser(username: bytes, password: bytes, email: bytes, registered: bool)

  /** Nodes are compared by name. */
  datatype NodeDescription = NodeDescription(ip: bytes, name: bytes, port: nat)

  /** Networks are compared by name. */
  datatype NetworkDescription = NetworkDescription(
    isPublic: bool, listed: bool, clientServer: bool, protocol: bytes, name: bytes, creator: User)

  datatype ServerDescription = ServerDescription(user: bytes, network: bytes, ip: bytes)

  datatype NodeError =
    | NoError | IsActive | NoConnection
    | InternalServerError | BadRequest | NoPrivilages | BadCredentials | NotLogged | NoSuchUser | NoSuchNetwork
    | BadData | AlreadyExists
    | BadServerResponse | SendError | Other
}
