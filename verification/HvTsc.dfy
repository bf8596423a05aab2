/** The Hyper-V reference TSC page: scale and offset computed from the kvmclock parameters. */
module HvTsc {
  import opened Arith

  /** struct pvclock_vcpu_time_info */
  datatype Clock = Clock(timestamp: nat, systemTime: nat, mul: nat, shift: int, stable: bool) {

    ghost predicate Wf() {
      timestamp < TWO64 && systemTime < TWO64 && mul < TWO32 && -25 <= shift <= 31
    }
  }

  /** The computed part of HV_REFERENCE_TSC_PAGE. */
  datatype TscRef = TscRef(scale: nat, offset: nat)

  /** mul_u64_u64_shr(a, b, 64) */
  function MulShr(a: nat, b: nat): nat {
    a * b / TWO64
  }

  /** compute_tsc_page_parameters */
  function Compute(c: Clock): Option<TscRef>
    requires c.Wf()
  {
    var maxMul := 100 * Pow2(32 - c.shift) % TWO64;
    if !c.stable || c.mul >= maxMul then None
    else
      var scale := Pow2(32 + c.shift) * c.mul / 100 % TWO64;
      Some(TscRef(scale, (c.systemTime / 100 - MulShr(c.timestamp, scale)) % TWO64))
  }

  /** get_time_ref_counter with the page in use. */
  function Time(r: TscRef, tsc: nat): nat {
    (MulShr(tsc, r.scale) + r.offset) % TWO64
  }

  /** Neither the limit on the multiplier nor the scale loses bits to the 64-bit width. */
  lemma ScaleFits(c: Clock)
    requires c.Wf()
    ensures 100 * Pow2(32 - c.shift) < TWO64
    ensures c.mul < 100 * Pow2(32 - c.shift) ==> Pow2(32 + c.shift) * c.mul / 100 < TWO64
  {
    hide Pow2;
    Pow2Values();
    Pow2Mono(32 - c.shift, 57);
    Pow2Split(32 + c.shift, 32 - c.shift);
    if c.mul < 100 * Pow2(32 - c.shift) {
      MulLess(Pow2(32 + c.shift), c.mul, 100 * Pow2(32 - c.shift));
      assert Pow2(32 + c.shift) * (100 * Pow2(32 - c.shift)) == 100 * TWO64;
    }
  }

  lemma MulLess(k: nat, a: nat, b: nat)
    requires k > 0 && a < b
    ensures k * a < k * b
  {
  }

  /** The tick count before it is truncated to 64 bits. */
  function Unwrapped(c: Clock, r: TscRef, tsc: nat): int {
    MulShr(tsc, r.scale) - MulShr(c.timestamp, r.scale) + c.systemTime / 100
  }

  lemma TimeIsUnwrapped(c: Clock, r: TscRef, tsc: nat)
    requires c.Wf() && Compute(c) == Some(r)
    ensures r.scale == Pow2(32 + c.shift) * c.mul / 100 < TWO64
    ensures c.mul < 100 * Pow2(32 - c.shift)
    ensures Time(r, tsc) == Unwrapped(c, r, tsc) % TWO64
  {
    hide Pow2, MulShr;
    ScaleFits(c);
    ModAdd(MulShr(tsc, r.scale), c.systemTime / 100 - MulShr(c.timestamp, r.scale));
  }

  lemma ModAdd(a: int, b: int)
    ensures (a + b % TWO64) % TWO64 == (a + b) % TWO64
  {
    var q := b / TWO64;
    assert a + b == (a + b % TWO64) + q * TWO64;
    ModShift(a + b % TWO64, q);
  }

  lemma {:induction false} ModShift(a: int, q: int)
    ensures (a + q * TWO64) % TWO64 == a % TWO64
    decreases if q < 0 then -q else q
  {
    if q > 0 {
      ModShift(a, q - 1);
      assert a + q * TWO64 == a + (q - 1) * TWO64 + TWO64;
    } else if q < 0 {
      ModShift(a, q + 1);
      assert a + q * TWO64 == a + (q + 1) * TWO64 - TWO64;
    }
  }

  lemma MulShrBounds(a: nat, b: nat)
    ensures MulShr(a, b) * TWO64 <= a * b < MulShr(a, b) * TWO64 + TWO64
  {
  }

  lemma MulShrMono(a1: nat, a2: nat, b: nat)
    requires a1 <= a2 < TWO64 && b < TWO64
    ensures 0 <= MulShr(a2, b) - MulShr(a1, b) < TWO64
  {
    hide MulShr;
    MulShrBounds(a1, b);
    MulShrBounds(a2, b);
    MulMono(b, a1, a2);
    MulMono(a2, b, TWO64);
    MulMono(TWO64, a2, TWO64 - 1);
    Quotients(MulShr(a1, b), MulShr(a2, b), b * a1, b * a2);
  }

  lemma MulMono(k: nat, a: nat, b: nat)
    requires a <= b
    ensures k * a <= k * b
  {
  }

  lemma Quotients(q1: nat, q2: nat, x1: nat, x2: nat)
    requires x1 <= x2 < TWO64 * TWO64
    requires q1 * TWO64 <= x1 < q1 * TWO64 + TWO64 && q2 * TWO64 <= x2 < q2 * TWO64 + TWO64
    ensures 0 <= q2 - q1 < TWO64
  {
  }

  /** Adding the offset carries out of 64 bits. */
  predicate Carries(r: TscRef, tsc: nat) {
    MulShr(tsc, r.scale) + r.offset >= TWO64
  }

  /**
   Whatever 64-bit scale and offset the page holds, the guest's clock does not run backwards between
   two TSC readings exactly when the addition of the offset carries for both or for neither.
   */
  lemma MonotoneExactly(r: TscRef, tsc1: nat, tsc2: nat)
    requires r.scale < TWO64 && r.offset < TWO64 && tsc1 <= tsc2 < TWO64
    ensures Time(r, tsc1) <= Time(r, tsc2) <==> (Carries(r, tsc1) <==> Carries(r, tsc2))
  {
    hide MulShr;
    MulShrMono(tsc1, tsc2, r.scale);
    MulShrMono(0, tsc2, r.scale);
    MulShrZero(r.scale);
  }

  lemma MulShrZero(b: nat)
    ensures MulShr(0, b) == 0
  {
  }

  /** A clock whose timestamp lies after the first reading: the time goes back. */
  lemma BackwardsBeforeTimestamp()
    ensures var c := Clock(TWO32, 0, 0x8000_0000, 0, true);
            c.Wf() && Compute(c).Some? && Time(Compute(c).value, 0) > Time(Compute(c).value, TWO32)
  {
    hide Pow2;
    Pow2Values();
    var c := Clock(TWO32, 0, 0x8000_0000, 0, true);
    var scale := 0x8000_0000_0000_0000 / 100;
    assert TWO32 * 0x8000_0000 == 0x8000_0000_0000_0000;
    assert MulShr(TWO32, scale) == 21474836;
    assert MulShr(0, scale) == 0;
  }

  /** Both readings after the timestamp, with a system time near the end of its range. */
  lemma BackwardsAfterTimestamp()
    ensures var c := Clock(0, TWO64 - 1, 199, 31, true);
            c.Wf() && Compute(c).Some? && Time(Compute(c).value, 0) > Time(Compute(c).value, TWO64 - 1)
  {
    Pow2Values();
    var c := Clock(0, TWO64 - 1, 199, 31, true);
    assert Pow2(1) == 2;
    var scale := 18354510353341003857;
    assert 0x8000_0000_0000_0000 * 199 / 100 == scale;
    assert MulShr(TWO64 - 1, scale) == scale - 1;
    assert MulShr(0, scale) == 0;
  }

  /** kvmclock at `tsc` in units of 100ns, exactly: its scaled delta plus the system time. */
  ghost function Exact(c: Clock, tsc: nat): real
    requires c.Wf() && tsc >= c.timestamp
  {
    (((tsc - c.timestamp) * c.mul * Pow2(32 + c.shift)) as real / TWO64 as real + c.systemTime as real) / 100.0
  }

  lemma ScaledDelta(d: nat, scale: nat, m: nat)
    requires 100 * scale <= m < 100 * scale + 100 && d < TWO64
    ensures d * m - 100 * TWO64 < 100 * (d * scale) <= d * m
  {
    MulMono(d, 100 * scale, m);
    MulMono(d, m, 100 * scale + 99);
    var x := d * scale;
    assert d * (100 * scale) == 100 * x;
    assert d * (100 * scale + 99) == 100 * x + 99 * d;
  }

  lemma ErrorScaled(d: nat, h: int, scale: nat, m: nat, sys: nat)
    requires 100 * scale <= m < 100 * scale + 100 && d < TWO64
    requires d * scale - TWO64 < h * TWO64 < d * scale + TWO64
    ensures var e := 100 * TWO64 * (h + sys / 100) - (d * m + sys * TWO64); -300 * TWO64 < e < 100 * TWO64
  {
    ScaledDelta(d, scale, m);
    var q := sys / 100;
    assert sys - 100 < 100 * q <= sys;
    assert 100 * TWO64 * (h + q) == 100 * (h * TWO64) + 100 * q * TWO64;
  }

  lemma DeltaBounds(c: Clock, r: TscRef, tsc: nat)
    requires c.timestamp <= tsc
    ensures var d, h := tsc - c.timestamp, MulShr(tsc, r.scale) - MulShr(c.timestamp, r.scale);
            d * r.scale - TWO64 < h * TWO64 < d * r.scale + TWO64
  {
    hide MulShr;
    MulShrBounds(tsc, r.scale);
    MulShrBounds(c.timestamp, r.scale);
    assert (tsc - c.timestamp) * r.scale == tsc * r.scale - c.timestamp * r.scale;
  }

  lemma RealBounds(u: int, a: int, s: int)
    requires -300 * TWO64 < 100 * TWO64 * u - (a + s * TWO64) < 100 * TWO64
    ensures -3.0 < u as real - (a as real / TWO64 as real + s as real) / 100.0 < 1.0
  {
    var b := TWO64 as real;
    var x := a as real / b;
    assert x * b == a as real;
    var e := u as real - (x + s as real) / 100.0;
    assert e * 100.0 * b == (100 * TWO64 * u - (a + s * TWO64)) as real;
  }

  ghost predicate Close(t: int, c: Clock, tsc: nat)
    requires c.Wf() && tsc >= c.timestamp
  {
    -3.0 < t as real - Exact(c, tsc) < 1.0
  }

  lemma UnwrappedIsClose(c: Clock, r: TscRef, tsc: nat)
    requires c.Wf() && Compute(c) == Some(r) && c.timestamp <= tsc < TWO64
    ensures Close(Unwrapped(c, r, tsc), c, tsc)
  {
    hide Pow2, MulShr, Time, Compute;
    TimeIsUnwrapped(c, r, tsc);
    var m := Pow2(32 + c.shift) * c.mul;
    var d := tsc - c.timestamp;
    DeltaBounds(c, r, tsc);
    ErrorScaled(d, MulShr(tsc, r.scale) - MulShr(c.timestamp, r.scale), r.scale, m, c.systemTime);
    assert d * m == d * c.mul * Pow2(32 + c.shift);
    RealBounds(Unwrapped(c, r, tsc), d * m, c.systemTime);
  }

  /**
   At or after the timestamp the time the guest reads is within (-3, +1) ticks of kvmclock / 100
   exactly when the scaled delta and the system time together fit in 64 bits; in particular
   whenever the exact value does.
   */
  lemma WithinThreeTicks(c: Clock, r: TscRef, tsc: nat)
    requires c.Wf() && Compute(c) == Some(r) && c.timestamp <= tsc < TWO64
    ensures Close(Time(r, tsc), c, tsc) <==>
              MulShr(tsc, r.scale) - MulShr(c.timestamp, r.scale) + c.systemTime / 100 < TWO64
    ensures Exact(c, tsc) <= (TWO64 - 1) as real ==> Close(Time(r, tsc), c, tsc)
  {
    hide Pow2, MulShr, Time, Compute, Exact;
    TimeIsUnwrapped(c, r, tsc);
    UnwrappedIsClose(c, r, tsc);
    MulShrMono(c.timestamp, tsc, r.scale);
    var u := Unwrapped(c, r, tsc);
    assert 0 <= u < 2 * TWO64;
    assert Time(r, tsc) == if u < TWO64 then u else u - TWO64;
  }

  /** The parameters are accepted exactly for a stable clock whose multiplier is under the limit. */
  lemma AcceptsExactly(c: Clock)
    requires c.Wf()
    ensures Compute(c).Some? <==> c.stable && Pow2(32 + c.shift) * c.mul / 100 < TWO64
  {
    hide Pow2;
    ScaleFits(c);
    Pow2Values();
    Pow2Split(32 + c.shift, 32 - c.shift);
    if c.mul >= 100 * Pow2(32 - c.shift) {
      assert Pow2(32 + c.shift) * c.mul >= Pow2(32 + c.shift) * (100 * Pow2(32 - c.shift));
      assert Pow2(32 + c.shift) * (100 * Pow2(32 - c.shift)) == 100 * TWO64;
    }
  }

  /** HV_REFERENCE_TSC_PAGE: the sequence and the parameters. */
  datatype Page = Page(sequence: nat, ref: TscRef) {

    /** A zero sequence tells the reader to use the time reference counter instead. */
    predicate Usable() { sequence != 0 }
  }

  /** The host's copy (hv->tsc_ref) and the page in guest memory. */
  class TscPage {
    var host: Page
    var guest: Page
    ghost var clock: Clock

    /**
     A nonzero sequence on the host side means the parameters are those of `clock`; when the guest
     side is nonzero too, the guest sees the same parameters.
     */
    ghost predicate Valid()
      reads this
    {
      && guest.sequence < TWO32
      && (host.sequence != 0 ==> clock.Wf() && Compute(clock) == Some(host.ref))
      && (host.sequence != 0 && guest.sequence != 0 ==> guest.sequence == host.sequence && guest.ref == host.ref)
    }

    constructor ()
      ensures Valid() && host.sequence == 0
    {
      host, guest, clock := Page(0, TscRef(0, 0)), Page(0, TscRef(0, 0)), Clock(0, 0, 0, 0, false);
    }

    /**
     kvm_hv_setup_tsc_page, with the outcome of each access to guest memory as a parameter. The
     guest ends up with a usable page for `c` exactly when every access succeeds and the parameters
     are accepted, or nothing was changed and its page was for the same parameters before. It is left
     with a usable page for other parameters exactly when the read or the zeroing write fails over
     such a page.
     */
    method Setup(c: Clock, readOk: bool, zeroOk: bool, bodyOk: bool, sequenceOk: bool)
      requires Valid() && c.Wf()
      modifies this
      ensures Valid()
      ensures guest.Usable() && Compute(c) == Some(guest.ref) <==>
        if readOk && zeroOk then Compute(c).Some? && bodyOk && sequenceOk
        else old(guest).Usable() && Compute(c) == Some(old(guest).ref)
      ensures guest.Usable() && Compute(c) != Some(guest.ref) <==>
        !(readOk && zeroOk) && old(guest).Usable() && Compute(c) != Some(old(guest).ref)
      ensures !readOk ==> host == old(host)
      ensures readOk ==> (host.Usable() <==> zeroOk && Compute(c).Some? && bodyOk)
      ensures readOk && host.Usable() ==>
        && clock == c && Compute(c) == Some(host.ref)
        && host.sequence != 0xFFFF_FFFF && host.sequence != old(guest.sequence)
        && (sequenceOk ==> guest == host)
    {
      hide Compute;
      if !readOk {
        return;
      }
      var seqno := guest.sequence;
      host := host.(sequence := 0);
      if !zeroOk {
        return;
      }
      guest := guest.(sequence := 0);
      var r := Compute(c);
      if r.None? {
        return;
      }
      host := host.(ref := r.value);
      if !bodyOk {
        return;
      }
      guest := host;
      clock := c;
      seqno := (seqno + 1) % TWO32;
      if seqno == 0xFFFF_FFFF || seqno == 0 {
        seqno := 1;
      }
      host := host.(sequence := seqno);
      if sequenceOk {
        guest := guest.(sequence := seqno);
      }
    }

    /** get_time_ref_counter */
    method GetTimeRefCounter(kvmclockNs: nat, tsc: nat) returns (t: nat)
      requires Valid()
      ensures host.sequence == 0 ==> t == kvmclockNs / 100
      ensures host.sequence != 0 ==> t == Unwrapped(clock, host.ref, tsc) % TWO64
    {
      hide Compute, Unwrapped;
      if host.sequence == 0 {
        return kvmclockNs / 100;
      }
      TimeIsUnwrapped(clock, host.ref, tsc);
      return Time(host.ref, tsc);
    }
  }

  /** The guest reads the old clock's page on after a failed zeroing write, while the host does not. */
  method StaleAfterFailedWrite() returns (p: TscPage, c: Clock)
    ensures fresh(p) && p.Valid() && c.Wf() && Compute(c).Some?
    ensures p.guest.Usable() && Compute(c) != Some(p.guest.ref) && !p.host.Usable()
  {
    hide Compute;
    p := new TscPage();
    var before := Clock(0, 0, 100, 0, true);
    c := Clock(0, 100, 100, 0, true);
    TwoClocks();
    p.Setup(before, true, true, true, true);
    p.Setup(c, true, false, true, true);
  }

  lemma TwoClocks()
    ensures Compute(Clock(0, 0, 100, 0, true)) == Some(TscRef(TWO32, 0))
    ensures Compute(Clock(0, 100, 100, 0, true)) == Some(TscRef(TWO32, 1))
  {
    Pow2Values();
    assert MulShr(0, TWO32) == 0;
  }
}
