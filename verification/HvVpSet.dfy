/** Hyper-V virtual processor sets: VP indices, the mismatch counter and sparse-bank expansion. */
module HvVpSet {

  const MAX_VCPUS: nat := 288
  const BANKS: nat := 5     // DIV_ROUND_UP(MAX_VCPUS, 64)

  /** A 64-bit word as the set of its set bits. */
  type Word = s: set<nat> | forall b :: b in s ==> b < 64

  /** How many valid banks come before `bank`. */
  function Rank(valid: Word, bank: nat): nat {
    if bank == 0 then 0 else Rank(valid, bank - 1) + if bank - 1 in valid then 1 else 0
  }

  lemma {:induction false} RankCounts(valid: Word, bank: nat)
    ensures Rank(valid, bank) == |set b | b in valid && b < bank|
    decreases bank
  {
    var below := set b | b in valid && b < bank;
    if bank == 0 {
      assert below == {};
    } else {
      RankCounts(valid, bank - 1);
      var less := set b | b in valid && b < bank - 1;
      if bank - 1 in valid {
        assert below == less + {bank - 1};
      } else {
        assert below == less;
      }
    }
  }

  lemma {:induction false} RankMono(valid: Word, a: nat, b: nat)
    requires a <= b
    ensures Rank(valid, a) <= Rank(valid, b)
    ensures a < b && a in valid ==> Rank(valid, a) < Rank(valid, b)
    decreases b
  {
    if a < b {
      RankMono(valid, a, b - 1);
    }
  }

  /** The VPs a sparse set names: the content of each valid bank is the word at its rank. */
  ghost predicate Names(valid: Word, sparse: seq<Word>, vp: nat) {
    && vp / 64 in valid
    && vp / 64 < BANKS
    && Rank(valid, vp / 64) < |sparse|
    && vp % 64 in sparse[Rank(valid, vp / 64)]
  }

  ghost function Mismatched(vpIndex: seq<nat>): set<nat> {
    set i: nat | i < |vpIndex| && vpIndex[i] != i
  }

  class Partition {
    var vpIndex: seq<nat>
    var numMismatched: int

    ghost predicate Valid()
      reads this
    {
      && |vpIndex| <= MAX_VCPUS
      && (forall i :: 0 <= i < |vpIndex| ==> vpIndex[i] < MAX_VCPUS)
      && numMismatched == |Mismatched(vpIndex)|
    }

    constructor ()
      ensures Valid() && vpIndex == []
    {
      vpIndex, numMismatched := [], 0;
    }

    /** kvm_hv_vcpu_postcreate */
    method PostCreate()
      requires Valid() && |vpIndex| < MAX_VCPUS
      modifies this
      ensures Valid() && vpIndex == old(vpIndex) + [|old(vpIndex)|]
    {
      vpIndex := vpIndex + [|vpIndex|];
      assert Mismatched(vpIndex) == Mismatched(old(vpIndex));
    }

    /** HV_X64_MSR_VP_INDEX in kvm_hv_set_msr */
    method SetVpIndex(idx: nat, val: nat, host: bool) returns (err: bool)
      requires Valid() && idx < |vpIndex|
      modifies this
      ensures Valid()
      ensures err == (!host || val >= MAX_VCPUS)
      ensures vpIndex == if err then old(vpIndex) else old(vpIndex)[idx := val]
    {
      if !host || val >= MAX_VCPUS {
        return true;
      }
      if val == vpIndex[idx] {
        return false;
      }
      ghost var before := vpIndex;
      MismatchUpdate(before, idx, val);
      if vpIndex[idx] == idx {
        numMismatched := numMismatched + 1;
      } else if val == idx {
        numMismatched := numMismatched - 1;
      }
      vpIndex := vpIndex[idx := val];
      return false;
    }

    /**
     sparse_set_to_vcpu_mask: whether or not the shortcut is taken, bit i of the result is set for
     an existing vCPU i exactly when the sparse set names its VP index. Only the words supplied for
     the valid banks are read.
     */
    method SparseSetToVcpuMask(valid: Word, sparse: seq<Word>) returns (mask: set<nat>)
      requires Valid() && |sparse| == Rank(valid, 64)
      ensures forall i :: 0 <= i < |vpIndex| ==> (i in mask <==> Names(valid, sparse, vpIndex[i]))
    {
      hide Rank;
      var bitmap := ExpandBanks(valid, sparse);
      if numMismatched == 0 {
        mask := set vp: nat | vp < 64 * BANKS && vp % 64 in bitmap[vp / 64];
        NoMismatch(vpIndex);
        return;
      }
      mask := {};
      for i := 0 to |vpIndex|
        invariant forall k :: k in mask ==> k < i
        invariant forall k :: 0 <= k < i ==> (k in mask <==> Names(valid, sparse, vpIndex[k]))
      {
        if vpIndex[i] % 64 in bitmap[vpIndex[i] / 64] {
          mask := mask + {i};
        }
      }
    }
  }

  /** The expansion loop: sparse word number Rank(bank) lands in bank `bank`. */
  method ExpandBanks(valid: Word, sparse: seq<Word>) returns (bitmap: seq<Word>)
    requires |sparse| == Rank(valid, 64)
    ensures |bitmap| == BANKS
    ensures forall vp: nat :: vp < 64 * BANKS ==> (vp % 64 in bitmap[vp / 64] <==> Names(valid, sparse, vp))
  {
    hide Rank;
    var words := new Word[BANKS](_ => {});
    var sbank := 0;
    RankZero(valid);
    for bank := 0 to BANKS
      invariant sbank == Rank(valid, bank)
      invariant forall b :: 0 <= b < bank && b in valid ==>
        Rank(valid, b) < |sparse| && words[b] == sparse[Rank(valid, b)]
      invariant forall b :: 0 <= b < BANKS && (b >= bank || b !in valid) ==> words[b] == {}
    {
      RankMono(valid, bank, 64);
      RankStep(valid, bank);
      if bank in valid {
        words[bank] := sparse[sbank];
        sbank := sbank + 1;
      }
    }
    bitmap := words[..];
  }

  lemma {:induction false} RankZero(valid: Word)
    ensures Rank(valid, 0) == 0
  {
  }

  lemma RankStep(valid: Word, bank: nat)
    ensures Rank(valid, bank + 1) == Rank(valid, bank) + if bank in valid then 1 else 0
  {
  }

  /** With no mismatch every VP index is the vCPU's own position. */
  lemma NoMismatch(vpIndex: seq<nat>)
    requires |Mismatched(vpIndex)| == 0
    ensures forall i :: 0 <= i < |vpIndex| ==> vpIndex[i] == i
  {
    forall i | 0 <= i < |vpIndex|
      ensures vpIndex[i] == i
    {
      assert i !in Mismatched(vpIndex);
    }
  }

  lemma MismatchUpdate(vpIndex: seq<nat>, idx: nat, val: nat)
    requires idx < |vpIndex| && val != vpIndex[idx]
    ensures |Mismatched(vpIndex[idx := val])| == |Mismatched(vpIndex)|
            + (if vpIndex[idx] == idx then 1 else if val == idx then -1 else 0)
  {
    var before, after := Mismatched(vpIndex), Mismatched(vpIndex[idx := val]);
    if vpIndex[idx] == idx {
      assert after == before + {idx};
    } else if val == idx {
      assert after == before - {idx};
    } else {
      assert after == before;
    }
  }
}
