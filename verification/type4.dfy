/**
  The confirmation responder `TCPServer.Type4` (packages/tcpserver/type4.go):
  given a block id, answer that block's hash, or 32 zero bytes when the block
  cannot be read or has no hash.
*/
module TcpServer {
  import opened Wrappers
  import opened GoInt

  datatype ConfirmRequest = ConfirmRequest(blockId: nat)
  datatype ConfirmResponse = ConfirmResponse(hash: seq<byte>)

  /** Go's `(*ConfirmResponse, error)` pair. */
  datatype Answer = Answer(resp: ConfirmResponse, err: Option<string>)

  /** The block store: the stored hash of each block it can read; a missing id is a failed read. */
  type BlockHashes = map<int, seq<byte>>

  /** `n` zero bytes: Go's zero value of a byte array. */
  function Zeros(n: nat): (z: seq<byte>)
    ensures |z| == n && forall i :: 0 <= i < n ==> z[i] == 0
  {
    if n == 0 then [] else [0] + Zeros(n - 1)
  }

  /** `[]byte([32]byte{})`: the hash sent for a block that cannot be confirmed. */
  const ZeroHash: seq<byte> := Zeros(32)

  /** `Type4`: the stored hash when the block is found with a non-empty hash, the zero hash otherwise. */
  function Type4(blocks: BlockHashes, r: ConfirmRequest): (a: Answer)
    ensures a.err.None?
    ensures |a.resp.hash| > 0
    ensures r.blockId !in blocks ==> a.resp.hash == ZeroHash
    ensures r.blockId in blocks && blocks[r.blockId] == [] ==> a.resp.hash == ZeroHash
    ensures r.blockId in blocks && blocks[r.blockId] != [] ==> a.resp.hash == blocks[r.blockId]
  {
    if r.blockId !in blocks || |blocks[r.blockId]| == 0 then Answer(ConfirmResponse(ZeroHash), None)
    else Answer(ConfirmResponse(blocks[r.blockId]), None)
  }

  /**
    The zero hash reaches the client exactly when the block is missing, has no
    hash, or its stored hash is itself 32 zero bytes: on the wire those cases
    cannot be told apart.
  */
  lemma ZeroHashMeaning(blocks: BlockHashes, r: ConfirmRequest)
    ensures Type4(blocks, r).resp.hash == ZeroHash <==>
              r.blockId !in blocks || blocks[r.blockId] == [] || blocks[r.blockId] == ZeroHash
  {
  }

  /** Any other answer is a hash the store really holds for that block. */
  lemma NonZeroAnswerIsStored(blocks: BlockHashes, r: ConfirmRequest)
    requires Type4(blocks, r).resp.hash != ZeroHash
    ensures r.blockId in blocks && Type4(blocks, r).resp.hash == blocks[r.blockId]
  {
  }
}
