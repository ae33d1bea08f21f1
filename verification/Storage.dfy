/** What a prover keeps: the raw file, the state and replica tables, and the Merkle tree. */
module Storage {
  import opened Field
  import opened MerkleTree
  import opened Numbers
  import opened Wrappers

  class ProverStorage {
    var rawData: Option<seq<Byte>>
    var chunkSize: nat
    var numChunks: nat
    var dropped: set<nat>
    var states: seq<Option<F>>
    var replicas: seq<Option<F>>
    var tree: Option<MerkleTree>

    constructor (numChunks: nat, chunkSize: nat)
      ensures rawData == None && this.chunkSize == chunkSize && this.numChunks == numChunks
      ensures dropped == {} && tree == None
      ensures states == seq(numChunks + 1, _ => None) && replicas == seq(numChunks + 1, _ => None)
    {
      this.rawData := None;
      this.chunkSize := chunkSize;
      this.numChunks := numChunks;
      dropped := {};
      states := seq(numChunks + 1, _ => None);
      replicas := seq(numChunks + 1, _ => None);
      tree := None;
    }

    /** Out-of-range writes are ignored. */
    method InsertState(i: nat, s: F)
      modifies this`states
      ensures states == if i < |old(states)| then old(states)[i := Some(s)] else old(states)
    {
      if i < |states| {
        states := states[i := Some(s)];
      }
    }

    method InsertReplica(i: nat, r: F)
      modifies this`replicas
      ensures replicas == if i < |old(replicas)| then old(replicas)[i := Some(r)] else old(replicas)
    {
      if i < |replicas| {
        replicas := replicas[i := Some(r)];
      }
    }

    function GetState(i: nat): Option<F>
      reads this
    {
      if i < |states| then states[i] else None
    }

    /** Chunk `i`, counted from one; a dropped chunk, or one the file does not hold in full, is absent. */
    function GetRawChunk(i: nat): Option<seq<Byte>>
      requires i >= 1
      reads this
    {
      if i in dropped || rawData.None? then None
      else
        var offset := (i - 1) * chunkSize;
        if offset + chunkSize <= |rawData.value| then Some(rawData.value[offset..offset + chunkSize]) else None
    }
  }
}
