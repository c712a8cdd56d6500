/** The hand-off blocks that describe memory, how MemoryPeim splits the firmware device out of them,
    and where InitializeMemory puts the region UEFI runs in. */
module MemoryHobs {
  import opened Bytes

  /** A resource descriptor, a memory allocation, or any other block of the list. */
  datatype Hob =
    | Resource(kind: ResourceKind, attributes: nat, start: Uintn, length: Uintn)
    | Allocation(base: Uintn, size: Uintn, kindOfUse: MemoryKind)
    | Unrelated

  datatype ResourceKind = SystemMemory | OtherResource
  datatype MemoryKind = BootServicesData | OtherUse

  /** Present, initialised, tested, write-combineable, write-through and write-back cacheable. */
  const MEMORY_ATTRIBUTES: nat := 0x3807

  /** The platform's constants. */
  datatype Platform = Platform(base: Uintn, size: Uintn, fdBase: Uintn, fdSize: Uint32, uefiSize: Uint32,
                               maxAllocAddress: Uintn) {
    function SystemTop(): Uintn {
      Wrap(base + size)
    }

    function FdTop(): Uintn {
      Wrap(fdBase + fdSize)
    }

    /** Memory and the firmware device are ranges of the address space; either may end with it. */
    predicate InTheSpace() {
      size > 0 && base + size <= UINTN_RANGE && fdBase + fdSize <= UINTN_RANGE
    }

    predicate DeviceInside() {
      base <= fdBase && fdBase + fdSize <= base + size
    }

    /** If the device starts behind the start of memory, both end with the address space or neither. */
    predicate TopsAgree() {
      fdBase < base || (base + size == UINTN_RANGE <==> fdBase + fdSize == UINTN_RANGE)
    }
  }

  function Top(h: Hob): Uintn
    requires h.Resource?
  {
    Wrap(h.start + h.length)
  }

  predicate IsSystemMemory(h: Hob) {
    h.Resource? && h.kind == SystemMemory
  }

  // ----- what MemoryPeim does to the list

  predicate DeclaresMain(p: Platform, h: Hob) {
    IsSystemMemory(h) && p.base >= h.start && Top(h) <= p.SystemTop()
  }

  predicate HoldsFd(p: Platform, h: Hob) {
    IsSystemMemory(h) && p.fdBase >= h.start && p.FdTop() <= Top(h)
  }

  function FindMain(p: Platform, hobs: seq<Hob>): (i: nat)
    ensures i <= |hobs| && (i < |hobs| ==> DeclaresMain(p, hobs[i]))
  {
    if hobs == [] || DeclaresMain(p, hobs[0]) then 0 else 1 + FindMain(p, hobs[1..])
  }

  function FindFd(p: Platform, hobs: seq<Hob>): (i: nat)
    ensures i <= |hobs| && (i < |hobs| ==> HoldsFd(p, hobs[i]))
  {
    if hobs == [] || HoldsFd(p, hobs[0]) then 0 else 1 + FindFd(p, hobs[1..])
  }

  lemma {:induction false} FindMainIsFirst(p: Platform, hobs: seq<Hob>, i: nat)
    requires i <= |hobs| && (i < |hobs| ==> DeclaresMain(p, hobs[i]))
    requires forall j | 0 <= j < i :: !DeclaresMain(p, hobs[j])
    ensures FindMain(p, hobs) == i
  {
    if i > 0 {
      FindMainIsFirst(p, hobs[1..], i - 1);
    }
  }

  lemma {:induction false} FindFdIsFirst(p: Platform, hobs: seq<Hob>, i: nat)
    requires i <= |hobs| && (i < |hobs| ==> HoldsFd(p, hobs[i]))
    requires forall j | 0 <= j < i :: !HoldsFd(p, hobs[j])
    ensures FindFd(p, hobs) == i
  {
    if i > 0 {
      FindFdIsFirst(p, hobs[1..], i - 1);
    }
  }

  function MainHob(p: Platform): Hob {
    Resource(SystemMemory, MEMORY_ATTRIBUTES, p.base, p.size)
  }

  function Declared(p: Platform, hobs: seq<Hob>): seq<Hob> {
    if FindMain(p, hobs) == |hobs| then hobs + [MainHob(p)] else hobs
  }

  predicate FdInSystemMemory(p: Platform) {
    p.fdBase >= p.base && p.FdTop() <= p.SystemTop()
  }

  /** The block that holds the firmware device is cut down, and what is cut off is appended. */
  function SplitHob(p: Platform, h: Hob): (Hob, seq<Hob>)
    requires HoldsFd(p, h)
  {
    var fd := h.(start := p.fdBase, length := p.fdSize);
    if p.fdBase == h.start then
      if p.SystemTop() != p.FdTop() then
        (h.(start := Wrap(h.start + p.fdSize), length := Wrap(h.length - p.fdSize)), [fd])
      else (h, [])
    else
      (h.(length := Wrap(p.fdBase - h.start)),
       if p.FdTop() < Top(h) then [fd, h.(start := p.FdTop(), length := Wrap(Top(h) - p.FdTop()))] else [fd])
  }

  function SplitList(p: Platform, hobs: seq<Hob>, i: nat): seq<Hob>
    requires i < |hobs| && HoldsFd(p, hobs[i])
  {
    hobs[i := SplitHob(p, hobs[i]).0] + SplitHob(p, hobs[i]).1 + [Allocation(p.fdBase, p.fdSize, BootServicesData)]
  }

  /** The list after MemoryPeim; None if its last assertion fails. */
  function AfterMemoryPeim(p: Platform, hobs: seq<Hob>): Option<seq<Hob>> {
    var declared := Declared(p, hobs);
    if !FdInSystemMemory(p) then Some(declared)
    else
      var i := FindFd(p, declared);
      if i == |declared| then None
      else
        Some(SplitList(p, declared, i))
  }

  class PeiMemory {
    var hobs: seq<Hob>

    method BuildResourceDescriptorHob(attributes: nat, start: Uintn, length: Uintn)
      modifies this
      ensures hobs == old(hobs) + [Resource(SystemMemory, attributes, start, length)]
    {
      hobs := hobs + [Resource(SystemMemory, attributes, start, length)];
    }

    method BuildMemoryAllocationHob(base: Uintn, size: Uintn)
      modifies this
      ensures hobs == old(hobs) + [Allocation(base, size, BootServicesData)]
    {
      hobs := hobs + [Allocation(base, size, BootServicesData)];
    }

    /** The list becomes that of AfterMemoryPeim; `ok` is the final assertion. */
    method MemoryPeim(p: Platform) returns (ok: bool)
      requires p.size != 0
      modifies this
      ensures ok == AfterMemoryPeim(p, old(hobs)).Some?
      ensures ok ==> hobs == AfterMemoryPeim(p, old(hobs)).value
    {
      var found := false;
      var next := 0;
      while next < |hobs|
        invariant next <= |hobs| && hobs == old(hobs)
        invariant forall j | 0 <= j < next :: !DeclaresMain(p, hobs[j])
      {
        if DeclaresMain(p, hobs[next]) {
          found := true;
          break;
        }
        next := next + 1;
      }
      FindMainIsFirst(p, hobs, next);
      if !found {
        BuildResourceDescriptorHob(MEMORY_ATTRIBUTES, p.base, p.size);
      }
      assert hobs == Declared(p, old(hobs));

      if p.fdBase >= p.base && p.FdTop() <= p.SystemTop() {
        ok := SplitFirmwareDevice(p);
      } else {
        ok := true;
      }
    }

    /** The search for the block that holds the firmware device, and its split. */
    method SplitFirmwareDevice(p: Platform) returns (found: bool)
      modifies this
      ensures var i := FindFd(p, old(hobs));
              && found == (i < |old(hobs)|)
              && (found ==> hobs == SplitList(p, old(hobs), i))
    {
      hide Wrap, FindFd;
      var next := 0;
      while next < |hobs|
        invariant next <= |hobs| && hobs == old(hobs)
        invariant forall j | 0 <= j < next :: !HoldsFd(p, hobs[j])
      {
        if HoldsFd(p, hobs[next]) {
          FindFdIsFirst(p, hobs, next);
          var resourceAttributes := hobs[next].attributes;
          var resourceLength := hobs[next].length;
          var resourceTop := Top(hobs[next]);
          if p.fdBase == hobs[next].start {
            if p.SystemTop() != p.FdTop() {
              BuildResourceDescriptorHob(resourceAttributes, p.fdBase, p.fdSize);
              hobs := hobs[next := hobs[next].(start := Wrap(hobs[next].start + p.fdSize))];
              hobs := hobs[next := hobs[next].(length := Wrap(hobs[next].length - p.fdSize))];
            }
          } else {
            BuildResourceDescriptorHob(resourceAttributes, p.fdBase, p.fdSize);
            hobs := hobs[next := hobs[next].(length := Wrap(p.fdBase - hobs[next].start))];
            if p.FdTop() < Wrap(hobs[next].start + resourceLength) {
              BuildResourceDescriptorHob(resourceAttributes, p.FdTop(), Wrap(resourceTop - p.FdTop()));
            }
          }
          BuildMemoryAllocationHob(p.fdBase, p.fdSize);
          return true;
        }
        next := next + 1;
      }
      FindFdIsFirst(p, hobs, next);
      return false;
    }

    /** The region chosen is that of Placement, and the blocks are those MemoryPeim makes; None if an
        assertion fails. */
    method InitializeMemory(p: Platform) returns (uefiBase: Option<Uintn>)
      modifies this
      ensures uefiBase.Some? <==> Placement(p).Some? && AfterMemoryPeim(p, old(hobs)).Some?
      ensures uefiBase.Some? ==> uefiBase == Placement(p) && hobs == AfterMemoryPeim(p, old(hobs)).value
    {
      hide Wrap;
      if !(p.size != 0) || !(p.base < p.maxAllocAddress) {
        return None;
      }
      var systemMemoryBase := p.base;
      var systemMemoryTop := Wrap(systemMemoryBase + p.size);
      if Wrap(systemMemoryTop - 1) > p.maxAllocAddress {
        systemMemoryTop := Wrap(p.maxAllocAddress + 1);
      }
      var fdBase := p.fdBase;
      var fdTop := Wrap(fdBase + p.fdSize);
      var uefiMemoryBase;
      if fdBase >= systemMemoryBase && fdTop <= systemMemoryTop {
        if Wrap(systemMemoryTop - fdTop) >= p.uefiSize {
          uefiMemoryBase := Wrap(systemMemoryTop - p.uefiSize);
        } else {
          if !(Wrap(systemMemoryBase + p.uefiSize) <= fdBase) {
            return None;
          }
          uefiMemoryBase := Wrap(fdBase - p.uefiSize);
        }
      } else {
        if !(fdBase < systemMemoryBase || fdBase >= systemMemoryTop) {
          return None;
        }
        if !(fdTop <= systemMemoryBase || fdTop > systemMemoryTop) {
          return None;
        }
        uefiMemoryBase := Wrap(systemMemoryTop - p.uefiSize);
      }
      var ok := MemoryPeim(p);
      if !ok {
        return None;
      }
      return Some(uefiMemoryBase);
    }
  }

  // ----- conservation

  /** One if the block is system memory, holds the byte at x, and has the attributes asked for. */
  function Covers(h: Hob, x: int, wanted: Option<nat>): nat {
    if IsSystemMemory(h) && h.start <= x < h.start + h.length && (wanted.Some? ==> h.attributes == wanted.value)
    then 1 else 0
  }

  /** How many blocks hold the byte at x as system memory, with given or any attributes. */
  function Count(hobs: seq<Hob>, x: int, wanted: Option<nat>): nat {
    if hobs == [] then 0 else Covers(hobs[0], x, wanted) + Count(hobs[1..], x, wanted)
  }

  /** Every byte of [lo, hi) is held by exactly one block, and no other byte by any. */
  ghost predicate Partition(hobs: seq<Hob>, lo: int, hi: int) {
    forall x :: Count(hobs, x, None) == if lo <= x < hi then 1 else 0
  }

  lemma {:induction false} CountAppend(a: seq<Hob>, b: seq<Hob>, x: int, wanted: Option<nat>)
    ensures Count(a + b, x, wanted) == Count(a, x, wanted) + Count(b, x, wanted)
  {
    if a == [] {
      assert a + b == b;
    } else {
      assert (a + b)[1..] == a[1..] + b;
      CountAppend(a[1..], b, x, wanted);
    }
  }

  lemma {:induction false} CountUpdate(hobs: seq<Hob>, i: nat, h: Hob, x: int, wanted: Option<nat>)
    requires i < |hobs|
    ensures Count(hobs[i := h], x, wanted) == Count(hobs, x, wanted) - Covers(hobs[i], x, wanted) + Covers(h, x, wanted)
  {
    if i == 0 {
      assert hobs[0 := h][1..] == hobs[1..];
    } else {
      assert hobs[i := h][1..] == hobs[1..][i - 1 := h];
      CountUpdate(hobs[1..], i - 1, h, x, wanted);
    }
  }

  lemma {:induction false} CoveringHob(hobs: seq<Hob>, x: int) returns (i: nat)
    requires Count(hobs, x, None) > 0
    ensures i < |hobs| && Covers(hobs[i], x, None) == 1
  {
    if Covers(hobs[0], x, None) == 1 {
      i := 0;
    } else {
      i := CoveringHob(hobs[1..], x);
      i := i + 1;
    }
  }

  lemma {:induction false} CountAtLeast(hobs: seq<Hob>, i: nat, x: int)
    requires i < |hobs|
    ensures Count(hobs, x, None) >= Covers(hobs[i], x, None)
  {
    if i > 0 {
      CountAtLeast(hobs[1..], i - 1, x);
    }
  }

  /** A block of a partition stays inside it. */
  lemma PartInBounds(hobs: seq<Hob>, lo: int, hi: int, i: nat)
    requires Partition(hobs, lo, hi) && i < |hobs| && IsSystemMemory(hobs[i]) && hobs[i].length > 0
    ensures lo <= hobs[i].start && hobs[i].start + hobs[i].length <= hi
  {
    CountAtLeast(hobs, i, hobs[i].start);
    CountAtLeast(hobs, i, hobs[i].start + hobs[i].length - 1);
  }

  ghost predicate NoSystemMemory(hobs: seq<Hob>) {
    forall h | h in hobs :: !IsSystemMemory(h)
  }

  lemma {:induction false} NothingCounted(hobs: seq<Hob>, x: int, wanted: Option<nat>)
    requires NoSystemMemory(hobs)
    ensures Count(hobs, x, wanted) == 0
  {
    if hobs != [] {
      assert hobs[0] in hobs && forall h | h in hobs[1..] :: h in hobs;
      NothingCounted(hobs[1..], x, wanted);
    }
  }

  /** Whether the search of the first step recognises declared memory. Memory that ends with the address
      space is recognised only in one block, or by an empty block at address 0. */
  ghost predicate StaysDeclared(p: Platform, hobs: seq<Hob>) {
    || NoSystemMemory(hobs)
    || p.base + p.size < UINTN_RANGE
    || exists h | h in hobs && IsSystemMemory(h) ::
         (h.start <= p.base && h.start + h.length == UINTN_RANGE) || (h.start == 0 && h.length == 0)
  }

  lemma MainIsDeclared(p: Platform, h: Hob)
    requires p.InTheSpace() && IsSystemMemory(h)
    requires h.length > 0 ==> p.base <= h.start && h.start + h.length <= p.base + p.size
    ensures p.base + p.size == UINTN_RANGE ==>
              (DeclaresMain(p, h) <==>
               (h.start <= p.base && h.start + h.length == UINTN_RANGE) || (h.start == 0 && h.length == 0))
    ensures p.base + p.size < UINTN_RANGE && h.start == p.base ==> DeclaresMain(p, h)
  {
    hide Wrap;
    WrapsOnce(p.base + p.size);
    WrapsOnce(h.start + h.length);
  }

  lemma WrapsOnce(n: int)
    requires 0 <= n <= UINTN_RANGE
    ensures Wrap(n) == if n == UINTN_RANGE then 0 else n
  {
  }

  lemma FindMainFinds(p: Platform, hobs: seq<Hob>)
    ensures FindMain(p, hobs) < |hobs| <==> exists h :: h in hobs && DeclaresMain(p, h)
  {
    var i := FindMain(p, hobs);
    if i < |hobs| {
      assert hobs[i] in hobs;
    } else {
      forall k | 0 <= k < |hobs| ensures !DeclaresMain(p, hobs[k]) {
        FindMainSkips(p, hobs, k);
      }
    }
  }

  /** In a partition the first step finds system memory declared exactly if StaysDeclared says so. */
  lemma PartitionIsRecognised(p: Platform, hobs: seq<Hob>)
    requires p.InTheSpace() && Partition(hobs, p.base, p.base + p.size)
    ensures FindMain(p, hobs) < |hobs| <==> StaysDeclared(p, hobs)
  {
    hide DeclaresMain, Partition;
    FindMainFinds(p, hobs);
    var k := FirstByte(hobs, p.base, p.base + p.size);
    assert hobs[k] in hobs;
    forall h | h in hobs && IsSystemMemory(h)
      ensures h.length > 0 ==> p.base <= h.start && h.start + h.length <= p.base + p.size
    {
      var j :| 0 <= j < |hobs| && hobs[j] == h;
      if h.length > 0 {
        PartInBounds(hobs, p.base, p.base + p.size, j);
      }
    }
    forall h | h in hobs && IsSystemMemory(h)
      ensures p.base + p.size == UINTN_RANGE ==>
                (DeclaresMain(p, h) <==>
                 (h.start <= p.base && h.start + h.length == UINTN_RANGE) || (h.start == 0 && h.length == 0))
      ensures p.base + p.size < UINTN_RANGE && h.start == p.base ==> DeclaresMain(p, h)
    {
      MainIsDeclared(p, h);
    }
    forall h | h in hobs && DeclaresMain(p, h) ensures IsSystemMemory(h) {
      DeclaringIsMemory(p, h);
    }
  }

  lemma DeclaringIsMemory(p: Platform, h: Hob)
    requires DeclaresMain(p, h)
    ensures IsSystemMemory(h)
  {
  }

  /** The block that holds the first byte of memory starts with it. */
  lemma FirstByte(hobs: seq<Hob>, lo: int, hi: int) returns (k: nat)
    requires Partition(hobs, lo, hi) && lo < hi
    ensures k < |hobs| && IsSystemMemory(hobs[k]) && hobs[k].start == lo && hobs[k].length > 0
  {
    k := CoveringHob(hobs, lo);
    PartInBounds(hobs, lo, hi, k);
  }

  /** After the first step system memory is partitioned if and only if it was undeclared or is recognised;
      otherwise it is declared a second time and every byte of it is held twice. */
  lemma DeclaredIsPartition(p: Platform, hobs: seq<Hob>)
    requires p.InTheSpace()
    requires NoSystemMemory(hobs) || Partition(hobs, p.base, p.base + p.size)
    ensures Declared(p, hobs) ==
            if NoSystemMemory(hobs) || !StaysDeclared(p, hobs) then hobs + [MainHob(p)] else hobs
    ensures StaysDeclared(p, hobs) <==> Partition(Declared(p, hobs), p.base, p.base + p.size)
    ensures !StaysDeclared(p, hobs) ==>
              forall x | p.base <= x < p.base + p.size :: Count(Declared(p, hobs), x, None) == 2
  {
    hide DeclaresMain;
    if NoSystemMemory(hobs) {
      assert FindMain(p, hobs) == |hobs| by {
        FindMainFinds(p, hobs);
        forall h | h in hobs && DeclaresMain(p, h) ensures false {
          DeclaringIsMemory(p, h);
        }
      }
    } else {
      PartitionIsRecognised(p, hobs);
    }
    forall x ensures Count(hobs + [MainHob(p)], x, None) == Count(hobs, x, None) + if p.base <= x < p.base + p.size then 1 else 0
    {
      CountAppend(hobs, [MainHob(p)], x, None);
      assert Count([MainHob(p)], x, None) == Covers(MainHob(p), x, None) + Count([], x, None);
    }
    if NoSystemMemory(hobs) {
      forall x ensures Count(hobs, x, None) == 0 {
        NothingCounted(hobs, x, None);
      }
    } else if !StaysDeclared(p, hobs) {
      assert Count(hobs + [MainHob(p)], p.base, None) == 2;
    }
  }

  lemma {:induction false} FindMainSkips(p: Platform, hobs: seq<Hob>, k: nat)
    requires k < |hobs| && k < FindMain(p, hobs)
    ensures !DeclaresMain(p, hobs[k])
  {
    if k > 0 {
      FindMainSkips(p, hobs[1..], k - 1);
    }
  }

  lemma {:induction false} FindFdSkips(p: Platform, hobs: seq<Hob>, k: nat)
    requires k < |hobs| && k < FindFd(p, hobs)
    ensures !HoldsFd(p, hobs[k])
  {
    if k > 0 {
      FindFdSkips(p, hobs[1..], k - 1);
    }
  }

  /** Cutting up a block that holds the device changes neither which bytes are held nor with what
      attributes. */
  lemma SplitConserves(p: Platform, h: Hob, x: int, wanted: Option<nat>)
    requires p.InTheSpace() && HoldsFd(p, h)
    requires h.start <= p.fdBase && p.fdBase + p.fdSize <= h.start + h.length <= UINTN_RANGE
    ensures var (cut, off) := SplitHob(p, h);
            Covers(cut, x, wanted) + Count(off, x, wanted) == Covers(h, x, wanted)
  {
    hide Wrap;
    WrapsOnce(h.start + h.length);
    WrapsOnce(p.fdBase + p.fdSize);
    WrapsOnce(p.fdBase - h.start);
    if p.fdBase == h.start {
      WrapsOnce(h.length - p.fdSize);
    }
    var (cut, off) := SplitHob(p, h);
    if |off| == 1 {
      assert Count(off, x, wanted) == Covers(off[0], x, wanted) + Count([], x, wanted);
    } else if |off| == 2 {
      WrapsOnce(h.start + h.length - p.fdBase - p.fdSize);
      assert off[1..] == [off[1]];
      assert Count(off[1..], x, wanted) == Covers(off[1], x, wanted) + Count([], x, wanted);
    }
  }

  lemma SplitMakesFdBlock(p: Platform, h: Hob)
    requires p.InTheSpace() && p.DeviceInside() && HoldsFd(p, h)
    requires h.start <= p.fdBase && p.fdBase + p.fdSize <= h.start + h.length <= p.base + p.size
    ensures var (cut, off) := SplitHob(p, h);
            var fd := h.(start := p.fdBase, length := p.fdSize);
            if off == [] then cut == fd else off[0] == fd
  {
    hide Wrap;
    WrapsOnce(h.start + h.length);
    WrapsOnce(p.base + p.size);
    WrapsOnce(p.fdBase + p.fdSize);
  }

  lemma FindFdFinds(p: Platform, hobs: seq<Hob>)
    ensures FindFd(p, hobs) < |hobs| <==> exists h :: h in hobs && HoldsFd(p, h)
  {
    var i := FindFd(p, hobs);
    if i < |hobs| {
      assert hobs[i] in hobs;
    } else {
      forall k | 0 <= k < |hobs| ensures !HoldsFd(p, hobs[k]) {
        FindFdSkips(p, hobs, k);
      }
    }
  }

  lemma SplitListCount(p: Platform, hobs: seq<Hob>, i: nat, x: int, wanted: Option<nat>)
    requires i < |hobs| && HoldsFd(p, hobs[i])
    ensures var (cut, off) := SplitHob(p, hobs[i]);
            Count(SplitList(p, hobs, i), x, wanted) ==
            Count(hobs, x, wanted) - Covers(hobs[i], x, wanted) + Covers(cut, x, wanted) + Count(off, x, wanted)
  {
    hide SplitHob, HoldsFd;
    var (cut, off) := SplitHob(p, hobs[i]);
    var last := Allocation(p.fdBase, p.fdSize, BootServicesData);
    CountAppend(hobs[i := cut] + off, [last], x, wanted);
    assert Count([last], x, wanted) == Covers(last, x, wanted) + Count([], x, wanted);
    CountAppend(hobs[i := cut], off, x, wanted);
    CountUpdate(hobs, i, cut, x, wanted);
  }

  /** Some block is exactly the device. */
  ghost predicate HasDeviceBlock(p: Platform, hobs: seq<Hob>) {
    exists h :: h in hobs && IsSystemMemory(h) && h.start == p.fdBase && h.length == p.fdSize
  }

  /** What conservation asks of the list after MemoryPeim: every byte is held by as many blocks of given
      attributes as before, so system memory is partitioned. If the device lies in memory, some block is
      exactly the device, a new last block allocates it, and of the blocks there were at most one has
      changed; otherwise nothing has. */
  ghost predicate Conserved(p: Platform, declared: seq<Hob>, after: seq<Hob>) {
    && Partition(after, p.base, p.base + p.size)
    && (forall x, wanted :: Count(after, x, wanted) == Count(declared, x, wanted))
    && if p.DeviceInside() then
         && DeviceDeclared(p, declared, after)
         && exists i :: OnlyChanged(declared, after, i)
       else
         after == declared
  }

  ghost predicate OnlyChanged(declared: seq<Hob>, after: seq<Hob>, i: nat) {
    i < |declared| <= |after| && forall j | 0 <= j < |declared| && j != i :: after[j] == declared[j]
  }

  ghost predicate DeviceDeclared(p: Platform, declared: seq<Hob>, after: seq<Hob>) {
    && HasDeviceBlock(p, after)
    && |after| > |declared|
    && after[|after| - 1] == Allocation(p.fdBase, p.fdSize, BootServicesData)
  }

  /** The part of it without which it means nothing. */
  ghost predicate Partitioned(p: Platform, declared: seq<Hob>, after: seq<Hob>) {
    && Partition(after, p.base, p.base + p.size)
    && if p.DeviceInside() then DeviceDeclared(p, declared, after) else after == declared
  }

  /** The first block of system memory that starts at x or below. */
  ghost predicate FirstBelow(hobs: seq<Hob>, x: int, i: nat) {
    && i < |hobs| && IsSystemMemory(hobs[i]) && hobs[i].start <= x
    && forall j | 0 <= j < i :: !(IsSystemMemory(hobs[j]) && hobs[j].start <= x)
  }

  /** Whether the split meets a block it can cut the device out of. A device that ends with the address
      space is cut out of the first block that starts below it, whether or not that block reaches it. */
  ghost predicate DeviceFits(p: Platform, hobs: seq<Hob>) {
    if p.fdBase + p.fdSize < UINTN_RANGE then
      exists h :: h in hobs && IsSystemMemory(h) && h.start <= p.fdBase && p.fdBase + p.fdSize <= h.start + h.length
    else
      exists i: nat :: FirstBelow(hobs, p.fdBase, i)
                  && (hobs[i].start + hobs[i].length == UINTN_RANGE
                      || (hobs[i].start == p.fdBase && HasDeviceBlock(p, hobs)))
  }

  /** The condition on the input: memory that is declared is recognised, the two tops agree, and a device
      inside memory lies in one block the split finds. */
  ghost predicate Conservable(p: Platform, hobs: seq<Hob>) {
    StaysDeclared(p, hobs) && p.TopsAgree() && (p.DeviceInside() ==> DeviceFits(p, Declared(p, hobs)))
  }

  /** HOB conservation, for memory and a device anywhere in the address space, and a list in which system
      memory is undeclared or partitioned: MemoryPeim conserves it if and only if the input is
      conservable. Otherwise not even system memory, the device's block and its allocation come out. */
  lemma HobConservation(p: Platform, hobs: seq<Hob>)
    requires p.InTheSpace()
    requires NoSystemMemory(hobs) || Partition(hobs, p.base, p.base + p.size)
    ensures Conservable(p, hobs) ==>
              AfterMemoryPeim(p, hobs).Some? && Conserved(p, Declared(p, hobs), AfterMemoryPeim(p, hobs).value)
    ensures AfterMemoryPeim(p, hobs).Some? && Partitioned(p, Declared(p, hobs), AfterMemoryPeim(p, hobs).value) ==>
              Conservable(p, hobs)
  {
    hide Partition, SplitList, FindFd, Declared, DeviceFits, HoldsFd, OnlyChanged;
    var declared := Declared(p, hobs);
    DeclaredIsPartition(p, hobs);
    TopsWrap(p);
    if FdInSystemMemory(p) && FindFd(p, declared) < |declared| {
      assert |SplitList(p, declared, FindFd(p, declared))| > |declared| by { SplitListGrows(p, declared); }
    }
    if p.TopsAgree() && p.DeviceInside() {
      if p.fdBase + p.fdSize < UINTN_RANGE {
        DeviceBelowTheTop(p, declared);
      } else {
        DeviceAtTheTop(p, hobs);
      }
    }
  }

  /** How the wrapped tops compare. */
  lemma TopsWrap(p: Platform)
    requires p.InTheSpace()
    ensures p.TopsAgree() ==> (FdInSystemMemory(p) <==> p.DeviceInside())
    ensures !p.TopsAgree() ==> (FdInSystemMemory(p) <==> p.base + p.size < UINTN_RANGE)
    ensures !p.TopsAgree() ==> (p.DeviceInside() <==> p.base + p.size == UINTN_RANGE)
  {
    hide Wrap;
    WrapsOnce(p.base + p.size);
    WrapsOnce(p.fdBase + p.fdSize);
  }

  lemma SplitListGrows(p: Platform, hobs: seq<Hob>)
    requires FindFd(p, hobs) < |hobs|
    ensures var i := FindFd(p, hobs);
            && |SplitList(p, hobs, i)| > |hobs|
            && OnlyChanged(hobs, SplitList(p, hobs, i), i)
            && SplitList(p, hobs, i)[|SplitList(p, hobs, i)| - 1] == Allocation(p.fdBase, p.fdSize, BootServicesData)
  {
    hide SplitHob, HoldsFd;
  }

  lemma SplitListHolds(p: Platform, hobs: seq<Hob>)
    requires FindFd(p, hobs) < |hobs|
    ensures var i := FindFd(p, hobs);
            var (cut, off) := SplitHob(p, hobs[i]);
            && cut in SplitList(p, hobs, i)
            && (forall h | h in off :: h in SplitList(p, hobs, i))
            && (cut == hobs[i] ==> forall h | h in hobs :: h in SplitList(p, hobs, i))
  {
    hide SplitHob, HoldsFd;
    var i := FindFd(p, hobs);
    var (cut, off) := SplitHob(p, hobs[i]);
    var after := SplitList(p, hobs, i);
    assert after[i] == cut;
    forall h | h in hobs && cut == hobs[i] ensures h in after {
      var k :| 0 <= k < |hobs| && hobs[k] == h;
      assert after[k] == h;
    }
  }

  /** In a partition, with both tops below the end of the space. */
  lemma DeviceBelowTheTop(p: Platform, hobs: seq<Hob>)
    requires p.InTheSpace() && p.DeviceInside() && Partition(hobs, p.base, p.base + p.size)
    requires p.base + p.size < UINTN_RANGE
    ensures FindFd(p, hobs) < |hobs| <==> DeviceFits(p, hobs)
    ensures FindFd(p, hobs) < |hobs| ==> Conserved(p, hobs, SplitList(p, hobs, FindFd(p, hobs)))
  {
    hide Partition, SplitList, SplitHob, HoldsFd, FindFd, OnlyChanged;
    FindFdFinds(p, hobs);
    forall h | h in hobs && IsSystemMemory(h)
      ensures h.start + h.length < UINTN_RANGE && (h.length > 0 ==> h.start + h.length <= p.base + p.size)
      ensures HoldsFd(p, h) <==> h.start <= p.fdBase && p.fdBase + p.fdSize <= h.start + h.length
    {
      var k :| 0 <= k < |hobs| && hobs[k] == h;
      if h.length > 0 {
        PartInBounds(hobs, p.base, p.base + p.size, k);
      }
      HoldsPlainly(p, h);
    }
    forall h | h in hobs && HoldsFd(p, h) ensures IsSystemMemory(h) {
      HoldingIsMemory(p, h);
    }
    var i := FindFd(p, hobs);
    if i < |hobs| {
      assert hobs[i] in hobs;
      SplitIsConserved(p, hobs);
    }
  }

  lemma HoldingIsMemory(p: Platform, h: Hob)
    requires HoldsFd(p, h)
    ensures IsSystemMemory(h)
  {
  }

  lemma HoldsPlainly(p: Platform, h: Hob)
    requires p.fdBase + p.fdSize < UINTN_RANGE && IsSystemMemory(h) && h.start + h.length < UINTN_RANGE
    ensures HoldsFd(p, h) <==> h.start <= p.fdBase && p.fdBase + p.fdSize <= h.start + h.length
  {
    hide Wrap;
    WrapNothing(p.fdBase + p.fdSize);
    WrapNothing(h.start + h.length);
  }

  /** The block found does hold the device. */
  lemma SplitIsConserved(p: Platform, hobs: seq<Hob>)
    requires p.InTheSpace() && p.DeviceInside() && Partition(hobs, p.base, p.base + p.size)
    requires FindFd(p, hobs) < |hobs|
    requires var h := hobs[FindFd(p, hobs)];
             h.start <= p.fdBase && p.fdBase + p.fdSize <= h.start + h.length <= p.base + p.size
    ensures Conserved(p, hobs, SplitList(p, hobs, FindFd(p, hobs)))
  {
    hide SplitHob, HoldsFd, FindFd, SplitList, Count, OnlyChanged;
    var i := FindFd(p, hobs);
    var after := SplitList(p, hobs, i);
    forall x, wanted ensures Count(after, x, wanted) == Count(hobs, x, wanted) {
      SplitListCount(p, hobs, i, x, wanted);
      SplitConserves(p, hobs[i], x, wanted);
    }
    SplitListGrows(p, hobs);
    SplitListHolds(p, hobs);
    SplitMakesFdBlock(p, hobs[i]);
    HoldingIsMemory(p, hobs[i]);
    var (cut, off) := SplitHob(p, hobs[i]);
    var fd := hobs[i].(start := p.fdBase, length := p.fdSize);
    assert fd in after && IsSystemMemory(fd) && fd.start == p.fdBase && fd.length == p.fdSize;
  }

  // ----- memory and a device that both end with the address space

  predicate BothAtTheTop(p: Platform) {
    p.InTheSpace() && p.DeviceInside() && p.fdBase + p.fdSize == UINTN_RANGE
  }

  /** Both tops are 0, and every block that starts low enough passes for one that holds the device. */
  lemma TopIsZero(p: Platform, h: Hob)
    requires BothAtTheTop(p)
    ensures p.SystemTop() == 0 && p.FdTop() == 0
    ensures HoldsFd(p, h) <==> IsSystemMemory(h) && h.start <= p.fdBase
  {
  }

  /** A block that starts below the device but does not reach it is made to overlap its neighbours. */
  lemma SplitOfWrongBlock(p: Platform, h: Hob)
    requires BothAtTheTop(p) && HoldsFd(p, h)
    requires h.start < p.fdBase && h.start + h.length < UINTN_RANGE
    ensures var (cut, off) := SplitHob(p, h);
            Covers(cut, MAX_UINTN, None) + Count(off, MAX_UINTN, None) > Covers(h, MAX_UINTN, None)
  {
    hide Wrap;
    TopIsZero(p, h);
    var (cut, off) := SplitHob(p, h);
    assert off[0] == h.(start := p.fdBase, length := p.fdSize);
    assert Covers(off[0], MAX_UINTN, None) == 1;
  }

  lemma SplitOfStartingBlock(p: Platform, h: Hob)
    requires BothAtTheTop(p) && HoldsFd(p, h) && h.start == p.fdBase
    ensures SplitHob(p, h) == (h, [])
  {
    TopIsZero(p, h);
  }

  /** The byte at the last address is never held less after the split than before. */
  lemma LastByteIsKept(p: Platform, hobs: seq<Hob>)
    requires BothAtTheTop(p) && FindFd(p, hobs) < |hobs|
    requires hobs[FindFd(p, hobs)].start + hobs[FindFd(p, hobs)].length <= UINTN_RANGE
    ensures var i := FindFd(p, hobs);
            var before, after := Count(hobs, MAX_UINTN, None), Count(SplitList(p, hobs, i), MAX_UINTN, None);
            && after >= before
            && (hobs[i].start < p.fdBase && hobs[i].start + hobs[i].length < UINTN_RANGE ==> after > before)
  {
    hide SplitHob, Wrap, SplitList, FindFd, Count, Covers;
    var i := FindFd(p, hobs);
    TopIsZero(p, hobs[i]);
    SplitListCount(p, hobs, i, MAX_UINTN, None);
    if hobs[i].start == p.fdBase {
      SplitOfStartingBlock(p, hobs[i]);
      assert Count([], MAX_UINTN, None) == 0 by { EmptyCount(); }
    } else if hobs[i].start + hobs[i].length == UINTN_RANGE {
      SplitConserves(p, hobs[i], MAX_UINTN, None);
    } else {
      SplitOfWrongBlock(p, hobs[i]);
    }
  }

  lemma EmptyCount()
    ensures forall x, wanted :: Count([], x, wanted) == 0
  {
  }

  lemma FoundIsFirstBelow(p: Platform, hobs: seq<Hob>, i: nat)
    requires BothAtTheTop(p)
    ensures FirstBelow(hobs, p.fdBase, i) <==> i < |hobs| && i == FindFd(p, hobs)
  {
    hide HoldsFd, FindFd;
    forall h ensures HoldsFd(p, h) <==> IsSystemMemory(h) && h.start <= p.fdBase {
      TopIsZero(p, h);
    }
    if FirstBelow(hobs, p.fdBase, i) {
      FindFdIsFirst(p, hobs, i);
    }
    if i < |hobs| && i == FindFd(p, hobs) {
      FindFdHolds(p, hobs);
      forall j | 0 <= j < i ensures !HoldsFd(p, hobs[j]) {
        FindFdSkips(p, hobs, j);
      }
    }
  }

  lemma FindFdHolds(p: Platform, hobs: seq<Hob>)
    requires FindFd(p, hobs) < |hobs|
    ensures HoldsFd(p, hobs[FindFd(p, hobs)])
  {
  }

  /** Nothing is cut; the allocation is all that is new. */
  lemma UncutIsConserved(p: Platform, hobs: seq<Hob>)
    requires BothAtTheTop(p) && Partition(hobs, p.base, p.base + p.size)
    requires FindFd(p, hobs) < |hobs| && hobs[FindFd(p, hobs)].start == p.fdBase
    ensures var after := SplitList(p, hobs, FindFd(p, hobs));
            && (HasDeviceBlock(p, hobs) ==> Conserved(p, hobs, after))
            && (HasDeviceBlock(p, after) ==> HasDeviceBlock(p, hobs))
  {
    hide SplitHob, HoldsFd, FindFd, Count, OnlyChanged;
    var i := FindFd(p, hobs);
    var after := SplitList(p, hobs, i);
    SplitOfStartingBlock(p, hobs[i]);
    EmptyCount();
    forall x, wanted ensures Count(after, x, wanted) == Count(hobs, x, wanted) {
      SplitListCount(p, hobs, i, x, wanted);
    }
    SplitListGrows(p, hobs);
    SplitListHolds(p, hobs);
    assert after == hobs + [Allocation(p.fdBase, p.fdSize, BootServicesData)];
  }

  lemma DeviceAtTheTop(p: Platform, hobs: seq<Hob>)
    requires BothAtTheTop(p)
    requires NoSystemMemory(hobs) || Partition(hobs, p.base, p.base + p.size)
    ensures var declared := Declared(p, hobs);
            var i := FindFd(p, declared);
            && (StaysDeclared(p, hobs) && DeviceFits(p, declared) ==>
                  i < |declared| && Conserved(p, declared, SplitList(p, declared, i)))
            && (i < |declared| && Partitioned(p, declared, SplitList(p, declared, i)) ==>
                  StaysDeclared(p, hobs) && DeviceFits(p, declared))
  {
    hide SplitHob, HoldsFd, FindFd, SplitList, Count, StaysDeclared, OnlyChanged, Declared, FirstBelow;
    var declared := Declared(p, hobs);
    var i := FindFd(p, declared);
    DeclaredIsPartition(p, hobs);
    forall j: nat ensures FirstBelow(declared, p.fdBase, j) <==> j < |declared| && j == i {
      FoundIsFirstBelow(p, declared, j);
    }
    if i < |declared| {
      assert declared[i].length > 0 ==> declared[i].start + declared[i].length <= UINTN_RANGE by {
        FindFdHolds(p, declared);
        HoldingIsMemory(p, declared[i]);
        BlockInBounds(p, hobs, i);
      }
      LastByteIsKept(p, declared);
      if StaysDeclared(p, hobs) {
        FindFdHolds(p, declared);
        TopIsZero(p, declared[i]);
        if declared[i].start + declared[i].length == UINTN_RANGE {
          SplitIsConserved(p, declared);
        } else if declared[i].start == p.fdBase {
          UncutIsConserved(p, declared);
        }
      }
    }
  }

  lemma BlockInBounds(p: Platform, hobs: seq<Hob>, i: nat)
    requires p.InTheSpace() && i < |Declared(p, hobs)| && IsSystemMemory(Declared(p, hobs)[i])
    requires NoSystemMemory(hobs) || Partition(hobs, p.base, p.base + p.size)
    ensures Declared(p, hobs)[i].length > 0 ==>
              Declared(p, hobs)[i].start + Declared(p, hobs)[i].length <= p.base + p.size
  {
    hide FindMain, Partition;
    if i < |hobs| {
      assert hobs[i] in hobs;
      if hobs[i].length > 0 {
        PartInBounds(hobs, p.base, p.base + p.size, i);
      }
    }
  }

  /** For undeclared memory and a device inside it the condition is on the two tops alone. */
  lemma UndeclaredMemory(p: Platform, hobs: seq<Hob>)
    requires p.InTheSpace() && NoSystemMemory(hobs) && p.DeviceInside()
    ensures Conservable(p, hobs) <==> p.base + p.size < UINTN_RANGE || p.fdBase + p.fdSize == UINTN_RANGE
  {
    hide FindMain;
    DeclaredIsPartition(p, hobs);
    var declared := hobs + [MainHob(p)];
    assert declared[|hobs|] == MainHob(p);
    assert MainHob(p) in declared;
    if p.fdBase + p.fdSize == UINTN_RANGE {
      forall j | 0 <= j < |hobs| ensures !IsSystemMemory(declared[j]) {
        assert hobs[j] in hobs;
      }
      assert FirstBelow(declared, p.fdBase, |hobs|);
    }
  }

  // ----- inputs that are not conserved

  /** 64-bit memory from 0x1000 to the last address, with a device in the middle: the device is not cut
      out and not allocated. */
  lemma DeviceIsNotCutOut()
    ensures var p := Platform(0x1000, UINTN_RANGE - 0x1000, 0x3000, 0x100, 0x1000, MAX_UINTN);
            p.InTheSpace() && p.DeviceInside() && AfterMemoryPeim(p, []) == Some([MainHob(p)])
  {
    var p := Platform(0x1000, UINTN_RANGE - 0x1000, 0x3000, 0x100, 0x1000, MAX_UINTN);
    assert Declared(p, []) == [MainHob(p)];
  }

  /** The same memory declared in two blocks is declared a second time, and its bytes are held twice. */
  lemma MemoryIsDeclaredTwice()
    ensures var p := Platform(0x1000, UINTN_RANGE - 0x1000, 0x3000, 0x100, 0x1000, MAX_UINTN);
            var hobs := [Resource(SystemMemory, 7, 0x1000, 0x1000), Resource(SystemMemory, 7, 0x2000, UINTN_RANGE - 0x2000)];
            && Partition(hobs, p.base, p.base + p.size)
            && AfterMemoryPeim(p, hobs) == Some(hobs + [MainHob(p)])
            && Count(hobs + [MainHob(p)], 0x3000, None) == 2
  {
    var p := Platform(0x1000, UINTN_RANGE - 0x1000, 0x3000, 0x100, 0x1000, MAX_UINTN);
    var hobs := [Resource(SystemMemory, 7, 0x1000, 0x1000), Resource(SystemMemory, 7, 0x2000, UINTN_RANGE - 0x2000)];
    forall x ensures Count(hobs, x, None) == if p.base <= x < p.base + p.size then 1 else 0 {
      assert hobs[1..] == [hobs[1]];
      assert Count(hobs[1..], x, None) == Covers(hobs[1], x, None) + Count([], x, None);
    }
    assert FindMain(p, hobs) == 2 by {
      FindMainIsFirst(p, hobs, 2);
    }
    CountAppend(hobs, [MainHob(p)], 0x3000, None);
    assert Count([MainHob(p)], 0x3000, None) == Covers(MainHob(p), 0x3000, None) + Count([], 0x3000, None);
  }

  /** A device that ends with the address space, above 2 GB of memory: it passes for one inside memory,
      and the block of memory is stretched up to it. */
  lemma MemoryIsStretched()
    ensures var p := Platform(0, 0x8000_0000, UINTN_RANGE - 0x1000, 0x1000, 0x1000, MAX_UINTN);
            && p.InTheSpace() && !p.DeviceInside()
            && AfterMemoryPeim(p, []).Some?
            && AfterMemoryPeim(p, []).value[0] == MainHob(p).(length := UINTN_RANGE - 0x1000)
  {
    var p := Platform(0, 0x8000_0000, UINTN_RANGE - 0x1000, 0x1000, 0x1000, MAX_UINTN);
    assert Declared(p, []) == [MainHob(p)];
    assert HoldsFd(p, MainHob(p));
    assert FindFd(p, [MainHob(p)]) == 0;
  }

  // ----- placement

  /** The top of the memory UEFI may use. */
  function ClampedTop(p: Platform): Uintn {
    if Wrap(p.SystemTop() - 1) > p.maxAllocAddress then Wrap(p.maxAllocAddress + 1) else p.SystemTop()
  }

  function Placement(p: Platform): Option<Uintn> {
    var top := ClampedTop(p);
    if p.size == 0 || p.base >= p.maxAllocAddress then None
    else if p.fdBase >= p.base && p.FdTop() <= top then
      if Wrap(top - p.FdTop()) >= p.uefiSize then Some(Wrap(top - p.uefiSize))
      else if Wrap(p.base + p.uefiSize) <= p.fdBase then Some(Wrap(p.fdBase - p.uefiSize))
      else None
    else if (p.fdBase < p.base || p.fdBase >= top) && (p.FdTop() <= p.base || p.FdTop() > top) then
      Some(Wrap(top - p.uefiSize))
    else None
  }

  predicate Disjoint(lo: int, hi: int, p: Platform) {
    hi <= p.fdBase || p.fdBase + p.fdSize <= lo
  }

  /** Where the usable memory ends: with system memory, or behind the last address that may be allocated. */
  function UsableEnd(p: Platform): int {
    if p.base + p.size <= p.maxAllocAddress + 1 then p.base + p.size else p.maxAllocAddress + 1
  }

  /** The clamped top is that end, or 0 if it is the end of the address space. */
  lemma UsableTop(p: Platform)
    requires p.InTheSpace() && p.base < p.maxAllocAddress
    ensures ClampedTop(p) == if UsableEnd(p) == UINTN_RANGE then 0 else UsableEnd(p)
    ensures p.base < UsableEnd(p) <= UINTN_RANGE
  {
    hide Wrap;
    WrapsOnce(p.base + p.size);
    WrapNothing(p.base + p.size - 1);
    LastOfNothing();
    if p.base + p.size > p.maxAllocAddress + 1 {
      WrapNothing(p.maxAllocAddress + 1);
    }
  }

  lemma LastOfNothing()
    ensures Wrap(-1) == MAX_UINTN
  {
  }

  /** The device is no larger than the usable memory; the region is not empty and no larger either. */
  predicate Sized(p: Platform) {
    p.InTheSpace() && p.fdSize <= UsableEnd(p) - p.base && 0 < p.uefiSize <= UsableEnd(p) - p.base
  }

  /** The region lies in usable memory and does not meet the device. */
  predicate PlacedWell(p: Platform, lo: int, hi: int) {
    p.base <= lo && hi <= UsableEnd(p) && Disjoint(lo, hi, p)
  }

  /** The condition under which the placement is right; below the end of the address space it always
      holds. */
  predicate RoomAtTheTop(p: Platform) {
    if UsableEnd(p) < UINTN_RANGE then p.fdBase + p.fdSize < UINTN_RANGE || UsableEnd(p) <= p.fdBase
    else if p.fdBase + p.fdSize < UINTN_RANGE then p.fdBase + p.fdSize + p.uefiSize <= UINTN_RANGE
    else p.base + p.uefiSize < UINTN_RANGE
  }

  /** The region chosen lies in usable memory and does not meet the device if and only if there is room
      at the top. */
  lemma RegionIsPlacedWell(p: Platform)
    requires Sized(p) && Placement(p).Some?
    ensures PlacedWell(p, Placement(p).value, Placement(p).value + p.uefiSize) <==> RoomAtTheTop(p)
  {
    hide Wrap, ClampedTop;
    UsableTop(p);
    WrapsOnce(p.fdBase + p.fdSize);
    if UsableEnd(p) < UINTN_RANGE {
      PlacedBelowTheTop(p);
    } else {
      PlacedAtTheTop(p);
    }
  }

  lemma PlacedBelowTheTop(p: Platform)
    requires Sized(p) && Placement(p).Some? && UsableEnd(p) < UINTN_RANGE
    ensures PlacedWell(p, Placement(p).value, Placement(p).value + p.uefiSize) <==> RoomAtTheTop(p)
  {
    hide Wrap, ClampedTop;
    UsableTop(p);
    WrapsOnce(p.fdBase + p.fdSize);
    var top := ClampedTop(p);
    WrapNothing(top - p.uefiSize);
    WrapNothing(p.base + p.uefiSize);
    if p.fdBase >= p.base && p.FdTop() <= top {
      WrapNothing(top - p.FdTop());
      if p.base + p.uefiSize <= p.fdBase {
        WrapNothing(p.fdBase - p.uefiSize);
      }
    }
  }

  lemma PlacedAtTheTop(p: Platform)
    requires Sized(p) && Placement(p).Some? && UsableEnd(p) == UINTN_RANGE
    ensures PlacedWell(p, Placement(p).value, Placement(p).value + p.uefiSize) <==> RoomAtTheTop(p)
  {
    hide Wrap, ClampedTop;
    UsableTop(p);
    WrapsOnce(p.fdBase + p.fdSize);
    var size: int := p.uefiSize;
    WrapsBelow(-size);
    WrapNothing(0);
    WrapsOnce(p.base + p.uefiSize);
    if p.fdBase >= p.uefiSize {
      WrapNothing(p.fdBase - p.uefiSize);
    } else {
      WrapsBelow(p.fdBase - p.uefiSize);
    }
  }

  lemma WrapsBelow(n: int)
    requires -UINTN_RANGE <= n < 0
    ensures Wrap(n) == n + UINTN_RANGE
  {
  }

  /** Where the region is put: it ends with the usable memory, unless the device lies there and leaves too
      little room above it; then it ends at the device. */
  lemma RegionIsPutHigh(p: Platform)
    requires Sized(p) && Placement(p).Some? && RoomAtTheTop(p)
    ensures var above := UsableEnd(p) - (p.fdBase + p.fdSize);
            Placement(p).value + p.uefiSize ==
            if p.base <= p.fdBase && 0 <= above < p.uefiSize then p.fdBase else UsableEnd(p)
  {
    hide Wrap, ClampedTop;
    UsableTop(p);
    WrapsOnce(p.fdBase + p.fdSize);
    var top := ClampedTop(p);
    var size: int := p.uefiSize;
    WrapsBelow(-size);
    WrapsOnce(p.base + p.uefiSize);
    if UsableEnd(p) < UINTN_RANGE {
      WrapNothing(top - p.uefiSize);
      if p.FdTop() <= top {
        WrapNothing(top - p.FdTop());
      }
    } else {
      WrapNothing(0);
    }
    if p.base + p.uefiSize <= p.fdBase {
      WrapNothing(p.fdBase - p.uefiSize);
    }
  }

  predicate Inside(lo: int, hi: int, h: Hob) {
    IsSystemMemory(h) && h.start <= lo && hi <= h.start + h.length
  }

  predicate InsideOther(lo: int, hi: int, h: Hob, p: Platform) {
    Inside(lo, hi, h) && (h.start, h.length) != (p.fdBase, p.fdSize)
  }

  /** A part of memory that does not meet the device survives the split in one piece, whatever the tops. */
  lemma DisjointPartSurvives(p: Platform, lo: int, hi: int)
    requires p.InTheSpace() && HoldsFd(p, MainHob(p))
    requires p.base <= lo < hi <= p.base + p.size && Disjoint(lo, hi, p)
    ensures var (cut, off) := SplitHob(p, MainHob(p));
            InsideOther(lo, hi, cut, p) || (|off| == 2 && InsideOther(lo, hi, off[1], p))
  {
    hide Wrap;
    WrapsOnce(p.base + p.size);
    WrapsOnce(p.fdBase + p.fdSize);
    if p.fdBase == p.base {
      WrapNothing(p.base + p.fdSize);
      WrapNothing(p.size - p.fdSize);
    } else {
      WrapNothing(p.fdBase - p.base);
      if hi > p.fdBase {
        WrapNothing(p.base + p.size - p.fdBase - p.fdSize);
      }
    }
  }

  /** Placement composed with splitting. From a list without system memory, for a device no larger than
      the usable memory and a non-empty region that fits it: if and only if there is room at the top, the
      region chosen lies in usable memory, does not meet the device, and after MemoryPeim lies inside one
      block of system memory that is not the device's. */
  lemma RegionIsUsable(p: Platform, hobs: seq<Hob>)
    requires Sized(p) && NoSystemMemory(hobs) && Placement(p).Some?
    ensures var lo, hi := Placement(p).value, Placement(p).value + p.uefiSize;
            RoomAtTheTop(p) <==>
            && PlacedWell(p, lo, hi)
            && AfterMemoryPeim(p, hobs).Some?
            && exists h :: h in AfterMemoryPeim(p, hobs).value && InsideOther(lo, hi, h, p)
  {
    RegionIsPlacedWell(p);
    if RoomAtTheTop(p) {
      WellPlacedIsInOneBlock(p, hobs, Placement(p).value, Placement(p).value + p.uefiSize);
    }
  }

  lemma WellPlacedIsInOneBlock(p: Platform, hobs: seq<Hob>, lo: int, hi: int)
    requires p.InTheSpace() && NoSystemMemory(hobs) && lo < hi && PlacedWell(p, lo, hi)
    ensures AfterMemoryPeim(p, hobs).Some?
    ensures exists h :: h in AfterMemoryPeim(p, hobs).value && InsideOther(lo, hi, h, p)
  {
    hide SplitHob, FindFd, FindMain, InsideOther;
    DeclaredIsPartition(p, hobs);
    var declared := hobs + [MainHob(p)];
    assert declared[|hobs|] == MainHob(p);
    if FdInSystemMemory(p) {
      MainHobHoldsFd(p, hobs);
      DisjointPartSurvives(p, lo, hi);
      var (cut, off) := SplitHob(p, MainHob(p));
      var after := AfterMemoryPeim(p, hobs).value;
      var h := if InsideOther(lo, hi, cut, p) then cut else off[1];
      assert h == after[if h == cut then |hobs| else |declared| + 1];
      assert h in after;
    } else {
      assert MainHob(p) in declared;
      assert InsideOther(lo, hi, MainHob(p), p) by { WholeIsOther(p, lo, hi); }
    }
  }

  lemma WholeIsOther(p: Platform, lo: int, hi: int)
    requires lo < hi && PlacedWell(p, lo, hi)
    ensures InsideOther(lo, hi, MainHob(p), p)
  {
  }

  lemma MainHobHoldsFd(p: Platform, hobs: seq<Hob>)
    requires NoSystemMemory(hobs) && FdInSystemMemory(p)
    ensures FindFd(p, hobs + [MainHob(p)]) == |hobs|
  {
    hide Wrap;
    forall j | 0 <= j < |hobs| ensures !HoldsFd(p, (hobs + [MainHob(p)])[j]) {
      assert hobs[j] in hobs;
    }
    FindFdIsFirst(p, hobs + [MainHob(p)], |hobs|);
  }
}
