/** Values shared by the RPC client, the RPC server and the protocol that connects them. */
module RpcTypes {

  datatype Option<+T> = None | Some(value: T)

  /** The procedure number reserved for binding. */
  const BIND: nat := 1

  const TIMEOUT_FAILURE := -1
  const ATMOSTONCE_FAILURE := -4
  const OLDSRV_FAILURE := -5
  const BIND_FAILURE := -6
  const CANCEL_FAILURE := -7

  /** A return code and the words that a handler marshalled. */
  datatype Result = Result(ret: int, data: seq<int>)

  /** What a server remembers about one client: an entry per remembered call, `None` while the
      handler is still running and `Some` once the reply is recorded. */
  type Table = map<nat, Option<Result>>

  datatype Verdict = New | InProgress | Done(reply: Result) | Forgotten
}
