/** The four data operations of a backend as indivisible steps on a disk of blocks. */
module BackendOps {
  import opened Bytes

  type Block = seq<byte>

  datatype Op =
    | Read(lba: nat, n: nat)
    | Write(lba: nat, data: seq<Block>)
    | Trim(lba: nat, n: nat)
    | CmpWrite(lba: nat, data: seq<Block>, expected: seq<Block>)
  {
    /** The number of blocks the operation covers. */
    function Count(): nat {
      match this
      case Read(_, n) => n
      case Trim(_, n) => n
      case Write(_, d) => |d|
      case CmpWrite(_, d, _) => |d|
    }

    /** The range is on a disk of `size` blocks; compare data and write data are equally long. */
    predicate Fits(size: nat) {
      && lba + Count() <= size
      && (CmpWrite? ==> |data| == |expected|)
    }

    predicate Touches(x: nat) {
      lba <= x < lba + Count()
    }

    /** The blocks the operation stores; trimmed blocks read as `zero`. */
    function Payload(zero: Block): (p: seq<Block>)
      ensures !Read? ==> |p| == Count()
    {
      match this
      case Read(_, _) => []
      case Trim(_, n) => Repeat(zero, n)
      case Write(_, d) => d
      case CmpWrite(_, d, _) => d
    }
  }

  /**
   What an operation returns. A device error during a transfer may leave a part of it on the disk:
   `WriteError(k)` records that `k` blocks had been stored, which the caller does not see.
   */
  datatype Outcome =
    | OkRead(blocks: seq<Block>)
    | Done
    | Mismatch
    | ReadError
    | WriteError(stored: nat)

  /** `outcome` is a possible result of performing `op` on `disk` in one indivisible step. */
  predicate Legal(zero: Block, disk: seq<Block>, op: Op, outcome: Outcome)
    requires op.Fits(|disk|)
  {
    var here := disk[op.lba..op.lba + op.Count()];
    match outcome
    case OkRead(blocks) => op.Read? && blocks == here
    case Done => !op.Read? && (op.CmpWrite? ==> here == op.expected)
    case Mismatch => op.CmpWrite? && here != op.expected
    case ReadError => op.Read? || op.CmpWrite?
    case WriteError(k) => !op.Read? && k < op.Count() && (op.CmpWrite? ==> here == op.expected)
  }

  /** The disk after the indivisible step. */
  function Effect(zero: Block, disk: seq<Block>, op: Op, outcome: Outcome): (r: seq<Block>)
    requires op.Fits(|disk|) && Legal(zero, disk, op, outcome)
    ensures |r| == |disk|
    ensures forall x :: 0 <= x < |disk| && !op.Touches(x) ==> r[x] == disk[x]
  {
    match outcome
    case Done => Splice(disk, op.lba, op.Payload(zero))
    case WriteError(k) => Splice(disk, op.lba, op.Payload(zero)[..k])
    case _ => disk
  }
}
