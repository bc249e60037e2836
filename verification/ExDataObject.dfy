/** The per-object half of crypto/ex_data.cc: a stack of pointers, padded with NULL on demand. */
module ExDataObject {
  import opened Wrappers

  /** A void pointer; None is NULL. */
  type Pointer = Option<int>

  datatype SetResult = Stored | OutOfMemory | Aborted

  /** What CRYPTO_get_ex_data finds at an index. */
  function Lookup(sk: Option<seq<Pointer>>, index: int): Pointer {
    if sk.None? || index < 0 || index >= |sk.value| then None else sk.value[index]
  }

  /** How many NULLs must be pushed before `index` exists. */
  function Padding(sk: Option<seq<Pointer>>, index: nat): nat {
    var size := if sk.None? then 0 else |sk.value|;
    if size <= index then index + 1 - size else 0
  }

  class ExData {
    var sk: Option<seq<Pointer>>

    /** CRYPTO_new_ex_data. */
    constructor ()
      ensures sk == None
    {
      sk := None;
    }

    /**
     CRYPTO_set_ex_data. `canAllocate` and `pushes` say what the allocator grants: the stack
     itself, and how many pushes. Without enough memory every lookup stays as it was.
     */
    method Set(index: int, val: Pointer, canAllocate: bool, pushes: nat) returns (r: SetResult)
      modifies this
      ensures r.Aborted? <==> index < 0
      ensures r.OutOfMemory? <==>
                index >= 0 && ((old(sk).None? && !canAllocate) || old(Padding(sk, index)) > pushes)
      ensures forall i :: Lookup(sk, i) == if r.Stored? && i == index then val else old(Lookup(sk, i))
    {
      if index < 0 {
        return Aborted;
      }
      if sk.None? {
        if !canAllocate {
          return OutOfMemory;
        }
        sk := Some([]);
      }
      var pushed := 0;
      for i := |sk.value| to (if |sk.value| <= index then index + 1 else |sk.value|)
        invariant sk.Some? && i == |sk.value|
        invariant pushed + Padding(sk, index) == old(Padding(sk, index)) && pushed <= pushes
        invariant forall k :: Lookup(sk, k) == old(Lookup(sk, k))
      {
        if pushed == pushes {
          return OutOfMemory;
        }
        sk := Some(sk.value + [None]);
        pushed := pushed + 1;
      }
      sk := Some(sk.value[index := val]);
      return Stored;
    }

    /** CRYPTO_get_ex_data. */
    method Get(index: int) returns (val: Pointer)
      ensures val == Lookup(sk, index)
    {
      if sk.None? || index < 0 || index >= |sk.value| {
        return None;
      }
      return sk.value[index];
    }
  }
}
