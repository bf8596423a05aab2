/** PUSHA and POPA over the emulator's register cache and a segmented stack. */
module Pusha {
  import opened Arith

  const RSP: nat := 4
  const REGS: nat := 16

  // ----- Memory ------------------------------------------------------------------------------

  type Memory = map<nat, nat>

  function Byte(mem: Memory, a: nat): nat {
    if a in mem then mem[a] % 256 else 0
  }

  function ReadVal(mem: Memory, a: nat, n: nat): nat
    decreases n
  {
    if n == 0 then 0 else Byte(mem, a) + 256 * ReadVal(mem, a + 1, n - 1)
  }

  function WriteVal(mem: Memory, a: nat, n: nat, v: nat): Memory
    decreases n
  {
    if n == 0 then mem else WriteVal(mem[a := v % 256], a + 1, n - 1, v / 256)
  }

  function Pow256(n: nat): (r: nat)
    ensures r > 0
  {
    if n == 0 then 1 else 256 * Pow256(n - 1)
  }

  lemma {:induction false} WriteBelow(mem: Memory, a: nat, n: nat, v: nat, x: nat)
    requires x < a || x >= a + n
    ensures Byte(WriteVal(mem, a, n, v), x) == Byte(mem, x)
    decreases n
  {
    if n > 0 {
      WriteBelow(mem[a := v % 256], a + 1, n - 1, v / 256, x);
    }
  }

  lemma ModStep(v: nat, m: nat)
    requires m > 0
    ensures v % (256 * m) == v % 256 + 256 * (v / 256 % m)
  {
    var q, r := v / 256 / m, v / 256 % m;
    assert v == (256 * m) * q + (256 * r + v % 256);
    DivUnique(v, 256 * m, q, 256 * r + v % 256);
  }

  lemma {:induction false} ReadBack(mem: Memory, a: nat, n: nat, v: nat)
    ensures ReadVal(WriteVal(mem, a, n, v), a, n) == v % Pow256(n)
    decreases n
  {
    if n > 0 {
      var first := mem[a := v % 256];
      var whole := WriteVal(first, a + 1, n - 1, v / 256);
      WriteBelow(first, a + 1, n - 1, v / 256, a);
      ReadBack(first, a + 1, n - 1, v / 256);
      ModStep(v, Pow256(n - 1));
      Glue(whole, a, n, v % 256, ReadVal(whole, a + 1, n - 1));
    }
  }

  lemma {:induction false} Glue(mem: Memory, a: nat, n: nat, low: nat, high: nat)
    requires n > 0 && Byte(mem, a) == low && ReadVal(mem, a + 1, n - 1) == high
    ensures ReadVal(mem, a, n) == low + 256 * high
  {
  }

  lemma {:induction false} ReadElsewhere(mem: Memory, a: nat, n: nat, v: nat, b: nat, k: nat)
    requires b + k <= a || a + n <= b
    ensures ReadVal(WriteVal(mem, a, n, v), b, k) == ReadVal(mem, b, k)
    decreases k
  {
    if k > 0 {
      WriteBelow(mem, a, n, v, b);
      ReadElsewhere(mem, a, n, v, b + 1, k - 1);
    }
  }

  // ----- Stack segment -------------------------------------------------------------------------

  /** The stack segment descriptor; `code`, `expandDown` and `writable` are its type bits. */
  datatype Segment = Segment(base: nat, limit: nat, usable: bool, code: bool, expandDown: bool, writable: bool, d: bool)

  /** __linearize outside 64-bit mode; a failed check is a stack fault. */
  function Linearize(ss: Segment, realMode: bool, ea: nat, size: nat, write: bool): Option<nat> {
    var down := !ss.code && ss.expandDown;
    var lim := if down then (if ss.d then 0xFFFF_FFFF else 0xFFFF) else ss.limit;
    if !ss.usable then None
    else if write && ((!realMode && ss.code) || !ss.writable) then None
    else if ss.code && !ss.writable then None
    else if down && ea <= ss.limit then None
    else if ea > lim then None
    else if lim != 0xFFFF_FFFF && size > lim + 1 - ea then None
    else Some((ss.base + ea) % TWO32)
  }

  /** One more than the stack mask. */
  function Wrap(ss: Segment): (m: nat)
    ensures m > 0
  {
    if ss.d then TWO32 else 0x1_0000
  }

  /** masked_increment: only the bits under the stack mask move. */
  function Advance(rsp: nat, m: nat, inc: int): nat
    requires m > 0
  {
    rsp / m * m + (rsp + inc) % m
  }

  lemma AdvanceTwice(rsp: nat, ss: Segment, i: int, j: int)
    ensures Advance(Advance(rsp, Wrap(ss), i), Wrap(ss), j) == Advance(rsp, Wrap(ss), i + j)
    ensures Advance(rsp, Wrap(ss), i) % Wrap(ss) == (rsp + i) % Wrap(ss)
    ensures Advance(rsp, Wrap(ss), 0) == rsp
  {
    var m := Wrap(ss);
    var q := rsp / m;
    var r := (rsp + i) % m;
    assert Advance(rsp, m, i) == q * m + r;
    assert (q * m + r) / m == q && (q * m + r) % m == r;
    assert ((q * m + r) + j) % m == (rsp + i + j) % m;
  }

  /** The stack pointer moves modulo 2^16 or 2^32, as the segment says, and keeps its upper bits. */
  lemma StackBits(rsp: nat, ss: Segment, inc: int)
    ensures var r := Advance(rsp, Wrap(ss), inc);
            if ss.d then r % 0x1_0000_0000 == (rsp + inc) % 0x1_0000_0000 && r / 0x1_0000_0000 == rsp / 0x1_0000_0000
            else r % 0x1_0000 == (rsp + inc) % 0x1_0000 && r / 0x1_0000 == rsp / 0x1_0000
  {
  }

  /** The offsets of the segment: up to the limit, or above it if it expands down. */
  predicate InSegment(ss: Segment, off: nat) {
    if ss.expandDown && !ss.code then ss.limit < off && off < (if ss.d then 0x1_0000_0000 else 0x1_0000)
    else off <= ss.limit
  }

  /** An access passes exactly if the segment allows its kind and all its bytes are in the segment;
      in a segment that ends at 4GB it is enough that the first one is. */
  lemma LinearizeExactly(ss: Segment, realMode: bool, ea: nat, size: nat, write: bool)
    requires size > 0
    ensures var la := Linearize(ss, realMode, ea, size, write);
            var to4G := if ss.expandDown && !ss.code then ss.d else ss.limit == 0xFFFF_FFFF;
            && (la.Some? <==>
                  && ss.usable && (write || ss.code ==> ss.writable) && (write && ss.code ==> realMode)
                  && InSegment(ss, ea) && (to4G || InSegment(ss, ea + size - 1)))
            && (la.Some? ==> la.value == (ss.base + ea) % 0x1_0000_0000)
  {
  }

  /** assign_register for a 2- or 4-byte value. */
  function Assign(reg: nat, v: nat, bytes: nat): nat {
    if bytes == 2 then reg - reg % 0x1_0000 + v % 0x1_0000 else v % TWO32
  }

  /** The effective address of the slot PUSHA uses for register `r`. */
  function SlotEa(rsp: nat, ss: Segment, bytes: nat, r: nat): nat {
    (rsp - (r + 1) * bytes) % Wrap(ss)
  }

  function SlotAddr(rsp: nat, ss: Segment, bytes: nat, r: nat): nat {
    (ss.base + SlotEa(rsp, ss, bytes, r)) % TWO32
  }

  /** The eight slots never overlap, even when the stack pointer or the address wraps. */
  lemma SlotsDisjoint(rsp: nat, ss: Segment, bytes: nat, i: nat, j: nat)
    requires bytes == 2 || bytes == 4
    requires i < 8 && j < 8 && i != j
    ensures SlotAddr(rsp, ss, bytes, i) + bytes <= SlotAddr(rsp, ss, bytes, j)
         || SlotAddr(rsp, ss, bytes, j) + bytes <= SlotAddr(rsp, ss, bytes, i)
  {
    var ei, ej := SlotEa(rsp, ss, bytes, i), SlotEa(rsp, ss, bytes, j);
    EaApart(rsp, ss, bytes, i, j);
    LinearApart(ss.base, ei, ej, bytes);
  }

  lemma EaApart(rsp: nat, ss: Segment, bytes: nat, i: nat, j: nat)
    requires bytes == 2 || bytes == 4
    requires i < 8 && j < 8 && i != j
    ensures var d := SlotEa(rsp, ss, bytes, i) - SlotEa(rsp, ss, bytes, j);
            bytes <= d <= TWO32 - bytes || bytes <= -d <= TWO32 - bytes
  {
    var a, b := (i + 1) * bytes, (j + 1) * bytes;
    OffsetsApart(bytes, i, j);
    if ss.d {
      Apart32(rsp, a, b, bytes);
    } else {
      Apart16(rsp, a, b, bytes);
    }
  }

  lemma OffsetsApart(bytes: nat, i: nat, j: nat)
    requires bytes == 2 || bytes == 4
    requires i < 8 && j < 8 && i != j
    ensures var d := (i + 1) * bytes - (j + 1) * bytes; bytes <= d <= 28 || bytes <= -d <= 28
  {
  }

  lemma Apart16(rsp: nat, a: nat, b: nat, bytes: nat)
    requires 2 <= bytes <= 4 && (bytes <= a - b <= 28 || bytes <= b - a <= 28)
    ensures var d := (rsp - a) % 0x1_0000 - (rsp - b) % 0x1_0000;
            bytes <= d <= TWO32 - bytes || bytes <= -d <= TWO32 - bytes
  {
  }

  lemma Apart32(rsp: nat, a: nat, b: nat, bytes: nat)
    requires 2 <= bytes <= 4 && (bytes <= a - b <= 28 || bytes <= b - a <= 28)
    ensures var d := (rsp - a) % TWO32 - (rsp - b) % TWO32;
            bytes <= d <= TWO32 - bytes || bytes <= -d <= TWO32 - bytes
  {
  }

  lemma LinearApart(base: nat, ei: nat, ej: nat, bytes: nat)
    requires bytes <= ei - ej <= TWO32 - bytes || bytes <= ej - ei <= TWO32 - bytes
    ensures (base + ei) % TWO32 + bytes <= (base + ej) % TWO32 || (base + ej) % TWO32 + bytes <= (base + ei) % TWO32
  {
  }

  /** What PUSHA stores: every register, truncated to the operand size, in its slot. */
  ghost predicate Saved(mem: Memory, regs: seq<nat>, ss: Segment, bytes: nat, n: nat)
    requires |regs| == REGS && n <= 8
  {
    forall r :: 0 <= r < n ==> ReadVal(mem, SlotAddr(regs[RSP], ss, bytes, r), bytes) == regs[r] % Pow256(bytes)
  }

  /** All slots pass the segment checks. */
  ghost predicate Reachable(rsp: nat, ss: Segment, realMode: bool, bytes: nat, n: nat, write: bool) {
    forall r :: 0 <= r < n ==> Linearize(ss, realMode, SlotEa(rsp, ss, bytes, r), bytes, write) == Some(SlotAddr(rsp, ss, bytes, r))
  }

  lemma {:induction false} SaveOne(mem: Memory, regs: seq<nat>, ss: Segment, bytes: nat, n: nat)
    requires |regs| == REGS && n < 8 && (bytes == 2 || bytes == 4) && Saved(mem, regs, ss, bytes, n)
    ensures Saved(WriteVal(mem, SlotAddr(regs[RSP], ss, bytes, n), bytes, regs[n]), regs, ss, bytes, n + 1)
  {
    hide ReadVal, WriteVal, SlotAddr, Pow256;
    var a := SlotAddr(regs[RSP], ss, bytes, n);
    ReadBack(mem, a, bytes, regs[n]);
    forall r | 0 <= r < n
      ensures ReadVal(WriteVal(mem, a, bytes, regs[n]), SlotAddr(regs[RSP], ss, bytes, r), bytes) == regs[r] % Pow256(bytes)
    {
      SlotsDisjoint(regs[RSP], ss, bytes, n, r);
      ReadElsewhere(mem, a, bytes, regs[n], SlotAddr(regs[RSP], ss, bytes, r), bytes);
    }
  }

  /** struct x86_emulate_ctxt with the guest's registers behind it. */
  class Ctxt {
    var gpr: seq<nat>
    var cache: seq<nat>
    var valid: set<nat>
    var dirty: set<nat>
    var mem: Memory
    const ss: Segment
    const realMode: bool
    const opBytes: nat

    ghost predicate Valid()
      reads this
    {
      && |gpr| == REGS && |cache| == REGS
      && (opBytes == 2 || opBytes == 4)
      && dirty <= valid
      && forall r :: 0 <= r < REGS && r in valid && r !in dirty ==> cache[r] == gpr[r]
    }

    /** The registers as the instruction sees them. */
    ghost function Regs(): (s: seq<nat>)
      requires Valid()
      reads this
      ensures |s| == REGS && forall r :: 0 <= r < REGS ==> s[r] == if r in valid then cache[r] else gpr[r]
    {
      seq(REGS, r requires 0 <= r < REGS && |cache| == REGS && |gpr| == REGS reads this => if r in valid then cache[r] else gpr[r])
    }

    /** reg_read */
    method RegRead(nr: nat) returns (v: nat)
      requires Valid() && nr < REGS
      modifies this`valid, this`cache
      ensures Valid() && Regs() == old(Regs()) && v == Regs()[nr] && nr in valid
    {
      if nr !in valid {
        valid := valid + {nr};
        cache := cache[nr := gpr[nr]];
      }
      v := cache[nr];
    }

    /** reg_rmw followed by a store through the pointer it returns. */
    method RegStore(nr: nat, v: nat)
      requires Valid() && nr < REGS
      modifies this`valid, this`dirty, this`cache
      ensures Valid() && Regs() == old(Regs())[nr := v]
    {
      var _ := RegRead(nr);
      valid, dirty := valid + {nr}, dirty + {nr};
      cache := cache[nr := v];
    }

    /** writeback_registers, then invalidate_registers before the next instruction. */
    method Finish()
      requires Valid()
      modifies this`gpr, this`valid, this`dirty
      ensures Valid() && valid == {} && gpr == Regs() == old(Regs())
    {
      ghost var regs := Regs();
      for reg := 0 to REGS
        invariant |gpr| == REGS && valid == old(valid) && dirty == old(dirty)
        invariant forall r :: 0 <= r < reg ==> gpr[r] == regs[r]
        invariant forall r :: reg <= r < REGS ==> gpr[r] == old(gpr)[r]
      {
        if reg in dirty {
          gpr := gpr[reg := cache[reg]];
        }
      }
      dirty, valid := {}, {};
    }

    /** rsp_increment */
    method RspIncrement(inc: int)
      requires Valid()
      modifies this`valid, this`dirty, this`cache
      ensures Valid() && Regs() == old(Regs())[RSP := Advance(old(Regs())[RSP], Wrap(ss), inc)]
    {
      var rsp := RegRead(RSP);
      RegStore(RSP, Advance(rsp, Wrap(ss), inc));
    }

    /** push: the stack pointer moves even when the store faults. */
    method Push(v: nat) returns (ok: bool)
      requires Valid()
      modifies this`valid, this`dirty, this`cache, this`mem
      ensures Valid() && Regs() == old(Regs())[RSP := Advance(old(Regs())[RSP], Wrap(ss), 0 - opBytes)]
      ensures var la := Linearize(ss, realMode, Regs()[RSP] % Wrap(ss), opBytes, true);
              ok == la.Some? && mem == if ok then WriteVal(old(mem), la.value, opBytes, v) else old(mem)
    {
      RspIncrement(0 - opBytes);
      var rsp := RegRead(RSP);
      var la := Linearize(ss, realMode, rsp % Wrap(ss), opBytes, true);
      ok := la.Some?;
      if ok {
        mem := WriteVal(mem, la.value, opBytes, v);
      }
    }

    /** emulate_pop: the stack pointer moves only when the load succeeds. */
    method Pop() returns (ok: bool, v: nat)
      requires Valid()
      modifies this`valid, this`dirty, this`cache
      ensures Valid()
      ensures var la := Linearize(ss, realMode, old(Regs())[RSP] % Wrap(ss), opBytes, false);
              && ok == la.Some?
              && Regs() == (if ok then old(Regs())[RSP := Advance(old(Regs())[RSP], Wrap(ss), opBytes)] else old(Regs()))
              && (ok ==> v == ReadVal(mem, la.value, opBytes))
    {
      var rsp := RegRead(RSP);
      var la := Linearize(ss, realMode, rsp % Wrap(ss), opBytes, false);
      ok, v := la.Some?, 0;
      if ok {
        v := ReadVal(mem, la.value, opBytes);
        RspIncrement(opBytes);
      }
    }

    /** em_pusha: all eight registers, RSP with its value before the instruction. */
    method Pusha() returns (ok: bool)
      requires Valid()
      modifies this`valid, this`dirty, this`cache, this`mem
      ensures Valid()
      ensures ok <==> Reachable(old(Regs())[RSP], ss, realMode, opBytes, 8, true)
      ensures ok ==>
        && Regs() == old(Regs())[RSP := Advance(old(Regs())[RSP], Wrap(ss), -8 * opBytes)]
        && Saved(mem, old(Regs()), ss, opBytes, 8)
    {
      hide Linearize, ReadVal, WriteVal, Pow256, Advance, Wrap, Saved, SlotEa, SlotAddr;
      ghost var regs := Regs();
      var oldEsp := RegRead(RSP);
      var reg := 0;
      ok := true;
      AdvanceTwice(regs[RSP], ss, 0, 0);
      SavedNone(mem, regs, ss, opBytes);
      while reg <= 7
        invariant 0 <= reg <= 8 && Valid() && ok
        invariant Regs() == regs[RSP := Advance(regs[RSP], Wrap(ss), 0 - reg * opBytes)]
        invariant Saved(mem, regs, ss, opBytes, reg)
        invariant Reachable(regs[RSP], ss, realMode, opBytes, reg, true)
      {
        ok := PushReg(reg, oldEsp, regs);
        if !ok {
          return;
        }
        reg := reg + 1;
      }
    }

    /** One turn of the PUSHA loop. */
    method PushReg(reg: nat, oldEsp: nat, ghost regs: seq<nat>) returns (ok: bool)
      requires Valid() && reg < 8 && |regs| == REGS && oldEsp == regs[RSP]
      requires Regs() == regs[RSP := Advance(regs[RSP], Wrap(ss), 0 - reg * opBytes)]
      requires Saved(mem, regs, ss, opBytes, reg)
      modifies this`valid, this`dirty, this`cache, this`mem
      ensures Valid()
      ensures ok <==> Linearize(ss, realMode, SlotEa(regs[RSP], ss, opBytes, reg), opBytes, true) == Some(SlotAddr(regs[RSP], ss, opBytes, reg))
      ensures ok ==> Regs() == regs[RSP := Advance(regs[RSP], Wrap(ss), 0 - (reg + 1) * opBytes)]
      ensures ok ==> Saved(mem, regs, ss, opBytes, reg + 1)
    {
      hide Linearize, ReadVal, WriteVal, Pow256, Advance, Wrap, Saved, SlotAddr;
      var v := oldEsp;
      if reg != RSP {
        v := RegRead(reg);
      }
      AdvanceTwice(regs[RSP], ss, 0 - reg * opBytes, 0 - opBytes);
      AdvanceTwice(regs[RSP], ss, 0 - (reg + 1) * opBytes, 0);
      assert 0 - reg * opBytes - opBytes == 0 - (reg + 1) * opBytes;
      LinearizeIs(regs[RSP], ss, realMode, opBytes, reg, true);
      SaveOne(mem, regs, ss, opBytes, reg);
      ok := Push(v);
    }

    /** em_popa: RSP's slot is skipped. */
    method Popa() returns (ok: bool)
      requires Valid()
      modifies this`valid, this`dirty, this`cache
      ensures Valid()
      ensures ok <==> Loadable(Advance(old(Regs())[RSP], Wrap(ss), 8 * opBytes), ss, realMode, opBytes, 0)
      ensures ok ==> Regs() == Popped(old(Regs()), mem, ss, opBytes, 0)
    {
      hide Linearize, ReadVal, Advance, Wrap, Assign, Popped, SlotEa;
      ghost var regs := Regs();
      ghost var top := Advance(regs[RSP], Wrap(ss), 8 * opBytes);
      var reg: int := 7;
      PoppedNone(regs, mem, ss, opBytes);
      while reg >= 0
        invariant -1 <= reg <= 7 && Valid()
        invariant Regs() == Popped(regs, mem, ss, opBytes, reg + 1)
        invariant Loadable(top, ss, realMode, opBytes, reg + 1)
      {
        if reg == RSP {
          SkipRsp(regs);
          reg := reg - 1;
        }
        ok := PopInto(reg, regs);
        if !ok {
          return;
        }
        reg := reg - 1;
      }
      ok := true;
    }

    /** The turn of the POPA loop that passes over the saved stack pointer. */
    method SkipRsp(ghost regs: seq<nat>)
      requires Valid() && |regs| == REGS
      requires Regs() == Popped(regs, mem, ss, opBytes, RSP + 1)
      modifies this`valid, this`dirty, this`cache
      ensures Valid() && Regs() == Popped(regs, mem, ss, opBytes, RSP)
    {
      hide ReadVal, Advance, Wrap, Assign;
      AdvanceTwice(Advance(regs[RSP], Wrap(ss), 8 * opBytes), ss, 0 - (RSP + 1) * opBytes, opBytes);
      assert 0 - (RSP + 1) * opBytes + opBytes == 0 - RSP * opBytes;
      RspIncrement(opBytes);
    }

    /** One turn of the POPA loop. */
    method PopInto(reg: nat, ghost regs: seq<nat>) returns (ok: bool)
      requires Valid() && reg < 8 && reg != RSP && |regs| == REGS
      requires Regs() == Popped(regs, mem, ss, opBytes, reg + 1)
      modifies this`valid, this`dirty, this`cache
      ensures Valid()
      ensures var top := Advance(regs[RSP], Wrap(ss), 8 * opBytes);
              ok <==> Linearize(ss, realMode, SlotEa(top, ss, opBytes, reg), opBytes, false).Some?
      ensures ok ==> Regs() == Popped(regs, mem, ss, opBytes, reg)
    {
      hide Linearize, ReadVal, Advance, Wrap, Assign;
      ghost var top := Advance(regs[RSP], Wrap(ss), 8 * opBytes);
      AdvanceTwice(top, ss, 0 - (reg + 1) * opBytes, opBytes);
      assert 0 - (reg + 1) * opBytes + opBytes == 0 - reg * opBytes;
      LinearizeIs(top, ss, realMode, opBytes, reg, false);
      var v;
      ok, v := Pop();
      if !ok {
        return;
      }
      var before := RegRead(reg);
      RegStore(reg, Assign(before, v, opBytes));
    }
  }

  /** The slots of registers `n` and up that POPA loads pass the segment checks. */
  ghost predicate Loadable(top: nat, ss: Segment, realMode: bool, bytes: nat, n: nat) {
    forall r :: n <= r < 8 && r != RSP ==> Linearize(ss, realMode, SlotEa(top, ss, bytes, r), bytes, false).Some?
  }

  /**
   The registers when POPA has loaded those numbered `n` and up, from the slots below where the
   stack pointer will end.
   */
  ghost function Popped(regs: seq<nat>, mem: Memory, ss: Segment, bytes: nat, n: nat): (s: seq<nat>)
    requires |regs| == REGS && n <= 8
    ensures |s| == REGS
  {
    var top := Advance(regs[RSP], Wrap(ss), 8 * bytes);
    seq(REGS, r requires 0 <= r < REGS =>
      if r == RSP then Advance(top, Wrap(ss), 0 - n * bytes)
      else if n <= r < 8 then Assign(regs[r], ReadVal(mem, SlotAddr(top, ss, bytes, r), bytes), bytes)
      else regs[r])
  }

  lemma PoppedNone(regs: seq<nat>, mem: Memory, ss: Segment, bytes: nat)
    requires |regs| == REGS
    ensures Popped(regs, mem, ss, bytes, 8) == regs
  {
    AdvanceTwice(regs[RSP], ss, 8 * bytes, -8 * bytes);
    AdvanceTwice(regs[RSP], ss, 0, 0);
  }

  lemma SavedNone(mem: Memory, regs: seq<nat>, ss: Segment, bytes: nat)
    requires |regs| == REGS
    ensures Saved(mem, regs, ss, bytes, 0)
  {
  }

  lemma LinearizeIs(rsp: nat, ss: Segment, realMode: bool, bytes: nat, r: nat, write: bool)
    ensures var la := Linearize(ss, realMode, SlotEa(rsp, ss, bytes, r), bytes, write);
            la.Some? ==> la.value == SlotAddr(rsp, ss, bytes, r)
  {
  }

  /** The registers after PUSHA, arbitrary changes to all but the stack pointer, and POPA. */
  ghost predicate Restored(before: seq<nat>, between: seq<nat>, after: seq<nat>, bytes: nat)
    requires |before| == |between| == |after| == REGS
  {
    && after[RSP] == before[RSP]
    && (forall r :: 0 <= r < 8 && r != RSP ==>
          after[r] == if bytes == 2 then between[r] - between[r] % 0x1_0000 + before[r] % 0x1_0000 else before[r] % TWO32)
    && (forall r :: 8 <= r < REGS ==> after[r] == between[r])
  }

  lemma Pow256Values()
    ensures Pow256(2) == 0x1_0000 && Pow256(4) == TWO32
  {
  }

  /** A slot that could be written can be read. */
  lemma WritableIsReadable(ss: Segment, realMode: bool, ea: nat, size: nat)
    requires Linearize(ss, realMode, ea, size, true).Some?
    ensures Linearize(ss, realMode, ea, size, false) == Linearize(ss, realMode, ea, size, true)
  {
  }

  lemma {:induction false} PoppedIsRestored(before: seq<nat>, between: seq<nat>, mem: Memory, ss: Segment, bytes: nat)
    requires |before| == |between| == REGS && (bytes == 2 || bytes == 4)
    requires Saved(mem, before, ss, bytes, 8)
    requires between[RSP] == Advance(before[RSP], Wrap(ss), -8 * bytes)
    ensures Restored(before, between, Popped(between, mem, ss, bytes, 0), bytes)
  {
    hide ReadVal, Advance, Wrap, Pow256, SlotAddr, Assign;
    Pow256Values();
    AdvanceTwice(before[RSP], ss, -8 * bytes, 8 * bytes);
    AdvanceTwice(before[RSP], ss, 0, 0);
    var after := Popped(between, mem, ss, bytes, 0);
    forall r | 0 <= r < 8 && r != RSP
      ensures after[r] == if bytes == 2 then between[r] - between[r] % 0x1_0000 + before[r] % 0x1_0000 else before[r] % TWO32
    {
      AssignTruncated(between[r], before[r], bytes);
    }
  }

  lemma AssignTruncated(reg: nat, v: nat, bytes: nat)
    requires bytes == 2 || bytes == 4
    ensures Assign(reg, v % (if bytes == 2 then 0x1_0000 else TWO32), bytes)
         == if bytes == 2 then reg - reg % 0x1_0000 + v % 0x1_0000 else v % TWO32
  {
  }

  /**
   PUSHA then POPA, each written back to the guest, with the guest free to change every other
   register in between: if PUSHA does not fault neither does POPA, the stack pointer comes back in
   full and every register comes back on the operand width.
   */
  method PushaThenPopa(c: Ctxt, between: seq<nat>) returns (ok: bool)
    requires c.Valid() && |between| == REGS
    modifies c
    ensures c.Valid()
    ensures ok <==> Reachable(old(c.Regs())[RSP], c.ss, c.realMode, c.opBytes, 8, true)
    ensures ok ==> Restored(old(c.Regs()), between, c.gpr, c.opBytes)
  {
    hide Saved, Advance, Wrap, Linearize, Popped, Restored;
    ghost var regs := c.Regs();
    ok := c.Pusha();
    if !ok {
      return;
    }
    c.Finish();
    var changed := between[RSP := c.gpr[RSP]];
    c.gpr := changed;
    assert c.Regs() == changed;
    AdvanceTwice(regs[RSP], c.ss, -8 * c.opBytes, 8 * c.opBytes);
    AdvanceTwice(regs[RSP], c.ss, 0, 0);
    forall r | 0 <= r < 8
      ensures Linearize(c.ss, c.realMode, SlotEa(regs[RSP], c.ss, c.opBytes, r), c.opBytes, false).Some?
    {
      WritableIsReadable(c.ss, c.realMode, SlotEa(regs[RSP], c.ss, c.opBytes, r), c.opBytes);
    }
    PoppedIsRestored(regs, changed, c.mem, c.ss, c.opBytes);
    ok := c.Popa();
    c.Finish();
    RestoredIgnoresRsp(regs, changed, between, c.gpr, c.opBytes);
  }

  lemma RestoredIgnoresRsp(before: seq<nat>, a: seq<nat>, b: seq<nat>, after: seq<nat>, bytes: nat)
    requires |before| == |a| == |b| == |after| == REGS && Restored(before, a, after, bytes)
    requires forall r :: 0 <= r < REGS && r != RSP ==> a[r] == b[r]
    ensures Restored(before, b, after, bytes)
  {
  }
}
