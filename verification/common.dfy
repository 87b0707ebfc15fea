/** Definitions shared by every part of the game model. */
module Common {

  /** A value that may be missing, like a JavaScript `undefined`. */
  datatype Option<+T> = None | Some(value: T)

  /** Number of matching merkle-root submissions that makes a root authoritative,
      and the exact length of a complete guess (`odaoConsensusRequired`). */
  const ConsensusRequired: nat := 10
}
