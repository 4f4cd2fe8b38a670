/** Endpoint accounting of a USB device controller (src/otg/endpoint.rs), in wrapping 8-bit arithmetic
    as a release build has it. */
module OtgEndpoint {
  import opened Prelude

  const DEFAULT_MAX_ENDPOINTS: Byte := 16

  /** The 8-bit sum. */
  function WrappingSum(used: Byte, count: Byte): Byte {
    var sum: nat := used + count;
    if sum < 256 then sum else sum - 256
  }

  class EndpointAllocator {
    const maxEndpoints: Byte
    var usedEndpoints: Byte

    constructor (maxEndpoints: Byte)
      ensures this.maxEndpoints == maxEndpoints && usedEndpoints == 0
    {
      this.maxEndpoints, usedEndpoints := maxEndpoints, 0;
    }

    function Available(): (n: Byte)
      reads this
      ensures n == 0 <==> usedEndpoints >= maxEndpoints
      ensures usedEndpoints <= maxEndpoints ==> usedEndpoints + n == maxEndpoints
    {
      if maxEndpoints >= usedEndpoints then maxEndpoints - usedEndpoints else 0
    }

    predicate CanAllocate(count: Byte)
      reads this
    {
      Available() >= count
    }

    method Allocate(count: Byte) returns (ok: bool)
      modifies this
      ensures ok <==> WrappingSum(old(usedEndpoints), count) <= maxEndpoints
      ensures usedEndpoints == if ok then WrappingSum(old(usedEndpoints), count) else old(usedEndpoints)
    {
      var sum := WrappingSum(usedEndpoints, count);
      if sum > maxEndpoints {
        return false;
      }
      usedEndpoints := sum;
      ok := true;
    }

    method Release(count: Byte)
      modifies this
      ensures usedEndpoints == if old(usedEndpoints) >= count then old(usedEndpoints) - count else 0
    {
      usedEndpoints := if usedEndpoints >= count then usedEndpoints - count else 0;
    }
  }

  /** Allocation grants exactly what fits if and only if the request does not wrap the counter to a
      small number; asking `can_allocate` first shuts that out. */
  lemma GrantsWhatFitsIff(max: Byte, used: Byte, count: Byte)
    requires used <= max
    ensures (WrappingSum(used, count) <= max <==> used + count <= max) <==> used + count < 256 || used + count - 256 > max
    ensures count <= max - used ==> WrappingSum(used, count) == used + count <= max
  {
  }

  /** Unguarded, 250 endpoints on top of ten used ones are granted out of sixteen, and the count falls. */
  lemma WrapGrantsTooMuch()
    ensures WrappingSum(10, 250) == 4 <= DEFAULT_MAX_ENDPOINTS < 10 + 250
  {
  }

  /* ---- Runs ---- */

  datatype Op = Allocate(count: Byte) | Release(count: Byte)

  function UsedAfter(max: Byte, ops: seq<Op>): Byte {
    if ops == [] then 0
    else
      var used := UsedAfter(max, ops[..|ops| - 1]);
      match ops[|ops| - 1]
      case Allocate(count) => if WrappingSum(used, count) <= max then WrappingSum(used, count) else used
      case Release(count) => if used >= count then used - count else 0
  }

  method RunOps(max: Byte, ops: seq<Op>) returns (used: Byte)
    ensures used == UsedAfter(max, ops)
  {
    var allocator := new EndpointAllocator(max);
    for i := 0 to |ops|
      invariant fresh(allocator) && allocator.maxEndpoints == max
      invariant allocator.usedEndpoints == UsedAfter(max, ops[..i])
    {
      assert ops[..i + 1][..i] == ops[..i];
      match ops[i] {
        case Allocate(count) => var _ := allocator.Allocate(count);
        case Release(count) => allocator.Release(count);
      }
    }
    assert ops[..|ops|] == ops;
    used := allocator.usedEndpoints;
  }

  /** The count stays within the limit in every run, wrapping requests included. */
  lemma {:induction false} UsedWithinMax(max: Byte, ops: seq<Op>)
    ensures UsedAfter(max, ops) <= max
    decreases |ops|
  {
    if ops != [] {
      UsedWithinMax(max, ops[..|ops| - 1]);
    }
  }

  /** After any run, releasing what was just granted restores the count if and only if the request did
      not wrap it. */
  lemma ReleaseUndoesAllocateIff(max: Byte, ops: seq<Op>, count: Byte)
    requires WrappingSum(UsedAfter(max, ops), count) <= max
    ensures UsedAfter(max, ops + [Allocate(count)] + [Release(count)]) == UsedAfter(max, ops)
            <==> UsedAfter(max, ops) + count < 256
  {
    var granted := ops + [Allocate(count)];
    assert granted[..|ops|] == ops;
    assert (granted + [Release(count)])[..|granted|] == granted;
  }
}
