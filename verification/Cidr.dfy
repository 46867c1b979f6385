/** Validation of the IP blocks of Kube-OVN traffic policies: every exception must lie strictly inside the block.

    Addresses are sequences of bits, as the masks of the implementation see them. An IPv4 address is kept in its
    16-byte form, mapped into IPv6. */
module Cidr {
  import opened Wrappers

  type Bits = seq<bool>

  function Repeat(b: bool, n: nat): (bits: Bits)
    ensures |bits| == n && forall i :: 0 <= i < n ==> bits[i] == b
  {
    seq(n, _ => b)
  }

  /** The 96 bits in front of an IPv4 address in its 16-byte form. */
  const V4_IN_V6_PREFIX: Bits := Repeat(false, 80) + Repeat(true, 16)

  /** A parsed CIDR literal: its family, its address in 16-byte form and its prefix length. */
  datatype Block = Block(isV4: bool, ip: Bits, prefix: nat) {
    predicate Valid() {
      && |ip| == 128
      && (isV4 ==> ip[..96] == V4_IN_V6_PREFIX && prefix <= 32)
      && (!isV4 ==> prefix <= 128)
    }
  }

  /** A policy's block; `None` stands for a literal that does not parse. */
  datatype IPBlock = IPBlock(cidr: Option<Block>, except: seq<Option<Block>>) {
    predicate Valid() {
      && (cidr.Some? ==> cidr.value.Valid())
      && (forall i :: 0 <= i < |except| && except[i].Some? ==> except[i].value.Valid())
    }
  }

  datatype Error = InvalidCIDR | InvalidExcept(i: nat) | SameAsCIDR(i: nat) | NotInCIDR(i: nat) | InvalidMask(i: nat)

  // ---------- What the implementation computes ----------

  /** Keeps the first `p` bits and clears the others. */
  function Mask(bits: Bits, p: nat): Bits
    requires p <= |bits|
  {
    bits[..p] + Repeat(false, |bits| - p)
  }

  /** Masks an address in 16-byte form with the mask of `n`; an IPv4 mask fits only an IPv4 address. */
  function MaskedBy(ip: Bits, n: Block): Option<Bits>
    requires n.Valid() && |ip| == 128
  {
    if !n.isV4 then Some(Mask(ip, n.prefix))
    else if ip[..96] == V4_IN_V6_PREFIX then Some(Mask(ip[96..], n.prefix))
    else None
  }

  /** The network address: 4 bytes for IPv4, 16 bytes for IPv6. */
  function NetworkIP(n: Block): Bits
    requires n.Valid()
  {
    Mask(if n.isV4 then n.ip[96..] else n.ip, n.prefix)
  }

  /** What the network prints as: IPv4-mapped networks print like IPv4 networks. */
  function Printed(n: Block): (bool, Bits, int)
    requires n.Valid()
  {
    var ip := NetworkIP(n);
    if n.isV4 then (true, ip, n.prefix)
    else if ip[..96] == V4_IN_V6_PREFIX then (true, ip[96..], n.prefix - 96)
    else (false, ip, n.prefix)
  }

  /** The verdict on exception number `i`. */
  function CheckExcept(n: Block, e: Block, i: nat): Outcome<Error>
    requires n.Valid() && e.Valid()
  {
    if Printed(e) == Printed(n) then Fail(SameAsCIDR(i))
    else if MaskedBy(e.ip, n) != Some(NetworkIP(n)) then Fail(NotInCIDR(i))
    else if e.prefix <= n.prefix then Fail(InvalidMask(i))
    else Pass
  }

  predicate AcceptedUpTo(block: IPBlock, k: nat)
    requires block.Valid() && block.cidr.Some? && k <= |block.except|
  {
    forall i :: 0 <= i < k ==>
      block.except[i].Some? && CheckExcept(block.cidr.value, block.except[i].value, i).Pass?
  }

  /** The first exception at fault decides the error. */
  method Validate(block: IPBlock) returns (result: Outcome<Error>)
    requires block.Valid()
    ensures result.Pass? <==> block.cidr.Some? && AcceptedUpTo(block, |block.except|)
    ensures result.Fail? && block.cidr.Some? ==> exists i ::
      && 0 <= i < |block.except|
      && AcceptedUpTo(block, i)
      && result == if block.except[i].None? then Fail(InvalidExcept(i))
                   else CheckExcept(block.cidr.value, block.except[i].value, i)
    ensures block.cidr.None? ==> result == Fail(InvalidCIDR)
  {
    if block.cidr.None? {
      return Fail(InvalidCIDR);
    }
    var n := block.cidr.value;
    for i := 0 to |block.except|
      invariant AcceptedUpTo(block, i)
    {
      if block.except[i].None? {
        return Fail(InvalidExcept(i));
      }
      var e := block.except[i].value;
      if Printed(e) == Printed(n) {
        return Fail(SameAsCIDR(i));
      }
      if MaskedBy(e.ip, n) != Some(NetworkIP(n)) {
        return Fail(NotInCIDR(i));
      }
      if e.prefix <= n.prefix {
        return Fail(InvalidMask(i));
      }
    }
    return Pass;
  }

  // ---------- What it should compute ----------

  /** The prefix length as a block of 128-bit addresses. */
  function Width(b: Block): nat {
    if b.isV4 then 96 + b.prefix else b.prefix
  }

  /** Address `a` belongs to the block. */
  predicate In(a: Bits, b: Block)
    requires b.Valid()
  {
    |a| == 128 && a[..Width(b)] == b.ip[..Width(b)]
  }

  ghost predicate Subset(e: Block, n: Block)
    requires e.Valid() && n.Valid()
  {
    forall a :: In(a, e) ==> In(a, n)
  }

  ghost predicate StrictSubset(e: Block, n: Block)
    requires e.Valid() && n.Valid()
  {
    Subset(e, n) && !Subset(n, e)
  }

  // ---------- Masks and blocks ----------

  lemma MaskEqual(a: Bits, b: Bits, p: nat)
    requires p <= |a| == |b|
    ensures Mask(a, p) == Mask(b, p) <==> a[..p] == b[..p]
  {
    assert Mask(a, p)[..p] == a[..p] && Mask(b, p)[..p] == b[..p];
  }

  lemma SplitAt96(a: Bits, b: Bits, p: nat)
    requires |a| == |b| == 128 && p <= 32
    ensures a[..96 + p] == b[..96 + p] <==> a[..96] == b[..96] && a[96..][..p] == b[96..][..p]
  {
    assert a[..96 + p] == a[..96] + a[96..][..p];
    assert b[..96 + p] == b[..96] + b[96..][..p];
  }

  /** The mask test is membership. */
  lemma MaskTestIsMembership(e: Block, n: Block)
    requires e.Valid() && n.Valid()
    ensures MaskedBy(e.ip, n) == Some(NetworkIP(n)) <==> In(e.ip, n)
  {
    if n.isV4 {
      SplitAt96(e.ip, n.ip, n.prefix);
      MaskEqual(e.ip[96..], n.ip[96..], n.prefix);
    } else {
      MaskEqual(e.ip, n.ip, n.prefix);
    }
  }

  /** One block lies strictly inside another iff its prefix is longer and extends the other's. */
  lemma StrictSubsetIsLongerPrefix(e: Block, n: Block)
    requires e.Valid() && n.Valid()
    ensures StrictSubset(e, n) <==> In(e.ip, n) && Width(e) > Width(n)
  {
    if In(e.ip, n) && Width(e) > Width(n) {
      forall a | In(a, e) ensures In(a, n) {
        assert a[..Width(n)] == a[..Width(e)][..Width(n)] == e.ip[..Width(e)][..Width(n)] == e.ip[..Width(n)];
      }
      var flipped := e.ip[Width(n) := !e.ip[Width(n)]];
      assert flipped[..Width(n)] == e.ip[..Width(n)];
      assert flipped[..Width(e)][Width(n)] != e.ip[..Width(e)][Width(n)];
      assert In(flipped, n) && !In(flipped, e);
    }
    if StrictSubset(e, n) {
      assert In(e.ip, e) && In(e.ip, n);
      if Width(e) <= Width(n) {
        forall a | In(a, n) ensures In(a, e) {
          assert a[..Width(e)] == a[..Width(n)][..Width(e)] == e.ip[..Width(n)][..Width(e)] == e.ip[..Width(e)];
        }
        assert false;
      }
    }
  }

  /** Two blocks, one of which contains the other's address, print alike iff they are equally wide. */
  lemma PrintedAlike(e: Block, n: Block)
    requires e.Valid() && n.Valid() && In(e.ip, n)
    ensures Printed(e) == Printed(n) <==> Width(e) == Width(n)
  {
    PrintedWidth(e);
    PrintedWidth(n);
    if Width(e) == Width(n) {
      PrintedDetermined(e, n);
    }
  }

  lemma PrintedWidth(b: Block)
    requires b.Valid()
    ensures Width(b) == if Printed(b).0 then 96 + Printed(b).2 else Printed(b).2
  {
  }

  lemma PrintedDetermined(e: Block, n: Block)
    requires e.Valid() && n.Valid() && Width(e) == Width(n) && In(e.ip, n)
    ensures Printed(e) == Printed(n)
  {
    PrintedForm(e);
    PrintedForm(n);
    MaskEqual(e.ip, n.ip, Width(n));
  }

  /** The printed form depends only on the block read as 128-bit addresses. */
  lemma PrintedForm(b: Block)
    requires b.Valid()
    ensures var ip := Mask(b.ip, Width(b));
      Printed(b) == if ip[..96] == V4_IN_V6_PREFIX then (true, ip[96..], Width(b) - 96) else (false, ip, Width(b))
  {
    if b.isV4 {
      var ip := Mask(b.ip, Width(b));
      assert ip[..96] == b.ip[..96];
      assert ip[96..] == Mask(b.ip[96..], b.prefix);
    }
  }

  // ---------- Main results ----------

  /** For all blocks, of either family, the verdict on an exception is right -- it passes iff the exception lies strictly
      inside -- if and only if comparing the written prefix lengths gives the same answer as comparing the widths,
      or the exception's address is outside, or both are equally wide. */
  lemma ExceptVerdict(n: Block, e: Block, i: nat)
    requires n.Valid() && e.Valid()
    ensures (CheckExcept(n, e, i).Pass? <==> StrictSubset(e, n)) <==>
      (!In(e.ip, n) || Width(e) == Width(n) || (e.prefix > n.prefix <==> Width(e) > Width(n)))
  {
    MaskTestIsMembership(e, n);
    StrictSubsetIsLongerPrefix(e, n);
    if In(e.ip, n) {
      PrintedAlike(e, n);
    }
  }

  lemma PrintedAlikeIsSame(e: Block, n: Block)
    requires e.Valid() && n.Valid() && Printed(e) == Printed(n)
    ensures In(e.ip, n) && Width(e) == Width(n)
  {
    PrintedForm(e);
    PrintedForm(n);
    var ip, net := Mask(e.ip, Width(e)), Mask(n.ip, Width(n));
    assert ip == ip[..96] + ip[96..] && net == net[..96] + net[96..];
    assert ip == net;
    MaskEqual(e.ip, n.ip, Width(n));
  }

  /** The verdict, case by case: an address outside, the same block, a prefix that is not longer, or accepted. */
  lemma ExceptErrorExactly(n: Block, e: Block, i: nat)
    requires n.Valid() && e.Valid()
    ensures CheckExcept(n, e, i) ==
      if !In(e.ip, n) then Fail(NotInCIDR(i))
      else if Width(e) == Width(n) then Fail(SameAsCIDR(i))
      else if e.prefix <= n.prefix then Fail(InvalidMask(i))
      else Pass
  {
    MaskTestIsMembership(e, n);
    if Printed(e) == Printed(n) {
      PrintedAlikeIsSame(e, n);
    } else if In(e.ip, n) {
      PrintedAlike(e, n);
    }
  }

  /** Within one family the verdict is always right. */
  lemma ExceptVerdictWithinFamily(n: Block, e: Block, i: nat)
    requires n.Valid() && e.Valid() && e.isV4 == n.isV4
    ensures CheckExcept(n, e, i).Pass? <==> StrictSubset(e, n)
  {
    ExceptVerdict(n, e, i);
  }

  /** Across families it is not: an IPv4 block accepts an IPv4-mapped exception wider than itself, and an IPv6 block
      refuses an IPv4 exception inside it. */
  lemma ExceptVerdictAcrossFamilies()
    ensures exists n: Block, e: Block ::
      && n.Valid() && e.Valid() && n.isV4 && !e.isV4
      && CheckExcept(n, e, 0).Pass? && !StrictSubset(e, n)
    ensures exists n: Block, e: Block ::
      && n.Valid() && e.Valid() && !n.isV4 && e.isV4
      && CheckExcept(n, e, 0).Fail? && StrictSubset(e, n)
  {
    var zero4 := V4_IN_V6_PREFIX + Repeat(false, 32);
    assert zero4[..96] == V4_IN_V6_PREFIX;
    var n, e := Block(true, zero4, 8), Block(false, zero4, 100);
    ExceptVerdict(n, e, 0);
    MaskTestIsMembership(e, n);
    PrintedAlike(e, n);
    StrictSubsetIsLongerPrefix(e, n);
    assert CheckExcept(n, e, 0).Pass? && !StrictSubset(e, n);
    var n6, e4 := Block(false, zero4, 64), Block(true, zero4, 8);
    ExceptVerdict(n6, e4, 0);
    StrictSubsetIsLongerPrefix(e4, n6);
    assert CheckExcept(n6, e4, 0).Fail? && StrictSubset(e4, n6);
  }

  /** A block all of whose literals are of one family is accepted iff every exception parses and, as a set of
      addresses, is a strict subset of the block. */
  lemma ValidateExact(block: IPBlock)
    requires block.Valid() && block.cidr.Some?
    requires forall i :: 0 <= i < |block.except| && block.except[i].Some? ==>
      block.except[i].value.isV4 == block.cidr.value.isV4
    ensures AcceptedUpTo(block, |block.except|) <==>
      forall i :: 0 <= i < |block.except| ==>
        block.except[i].Some? && StrictSubset(block.except[i].value, block.cidr.value)
  {
    forall i | 0 <= i < |block.except| && block.except[i].Some?
      ensures CheckExcept(block.cidr.value, block.except[i].value, i).Pass?
         <==> StrictSubset(block.except[i].value, block.cidr.value)
    {
      ExceptVerdictWithinFamily(block.cidr.value, block.except[i].value, i);
    }
  }
}
