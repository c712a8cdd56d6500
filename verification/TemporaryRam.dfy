/** Moving the stack and heap that SEC used in temporary RAM to permanent RAM, and the layout of
    temporary RAM that the move has to agree with. */
module TemporaryRam {
  import opened Bytes

  /** CPU_STACK_ALIGNMENT on AArch64. */
  const STACK_ALIGNMENT: nat := 16

  /** ALIGN_VALUE: the low bits of (alignment - value) are those of -value. */
  function AlignValue(value: Uintn): (aligned: Uintn)
    ensures value + STACK_ALIGNMENT <= UINTN_RANGE ==>
              aligned % STACK_ALIGNMENT == 0 && value <= aligned < value + STACK_ALIGNMENT
  {
    var v: int := value;
    Wrap(v + (-v) % STACK_ALIGNMENT)
  }

  function HeapSize(copySize: Uintn): Uintn {
    AlignValue(copySize / 2)
  }

  /** The rounded-up half fits its area exactly when there is no half to round or the area holds one
      aligned unit. */
  lemma HeapFits(copySize: Uintn)
    ensures HeapSize(copySize) <= copySize <==> copySize < 2 || copySize >= STACK_ALIGNMENT
  {
    hide Wrap;
    var half := copySize / 2;
    WrapNothing(half + (-half) % STACK_ALIGNMENT);
  }

  /** The heap is half of its area, rounded up to the next aligned size. */
  lemma HeapIsHalf(copySize: Uintn)
    ensures HeapSize(copySize) % 16 == 0
    ensures copySize / 2 <= HeapSize(copySize) < copySize / 2 + 16
  {
    hide Wrap;
    var half: int := copySize / 2;
    WrapNothing(half + (-half) % STACK_ALIGNMENT);
  }

  /** The hand-off block PrimaryMain gives the PEI core. */
  datatype SecCoreData = SecCoreData(temporaryRamBase: Uintn, temporaryRamSize: Uintn,
                                     peiTemporaryRamBase: Uintn, peiTemporaryRamSize: Uintn,
                                     stackBase: Uintn, stackSize: Uintn)

  method PrimaryMain(coresStackBase: Uintn, primaryStackSize: Uintn, ppiListBytes: Uintn) returns (sec: SecCoreData)
    requires coresStackBase + primaryStackSize < UINTN_RANGE
    requires AlignValue(ppiListBytes) <= primaryStackSize
    requires HeapSize(primaryStackSize - AlignValue(ppiListBytes)) <= primaryStackSize - AlignValue(ppiListBytes)
    ensures sec.temporaryRamBase + sec.temporaryRamSize == coresStackBase + primaryStackSize
    ensures sec.temporaryRamBase == coresStackBase + AlignValue(ppiListBytes)
    ensures sec.peiTemporaryRamBase == sec.temporaryRamBase
    ensures sec.peiTemporaryRamBase + sec.peiTemporaryRamSize == sec.stackBase
    ensures sec.stackBase + sec.stackSize == sec.temporaryRamBase + sec.temporaryRamSize
    ensures sec.stackBase == OldStack(sec.temporaryRamBase, sec.temporaryRamSize)
    ensures sec.stackSize == sec.temporaryRamSize - HeapSize(sec.temporaryRamSize)
  {
    hide Wrap, AlignValue;
    var ppiListSize := AlignValue(ppiListBytes);
    WrapNothing(coresStackBase + ppiListSize);
    WrapNothing(primaryStackSize - ppiListSize);
    var temporaryRamBase := Wrap(coresStackBase + ppiListSize);
    var temporaryRamSize := Wrap(primaryStackSize - ppiListSize);
    var peiTemporaryRamSize := AlignValue(temporaryRamSize / 2);
    WrapNothing(temporaryRamBase + peiTemporaryRamSize);
    WrapNothing(temporaryRamBase + temporaryRamSize - (temporaryRamBase + peiTemporaryRamSize));
    var stackBase := Wrap(temporaryRamBase + peiTemporaryRamSize);
    var stackSize := Wrap(temporaryRamBase + temporaryRamSize - stackBase);
    sec := SecCoreData(temporaryRamBase, temporaryRamSize, temporaryRamBase, peiTemporaryRamSize, stackBase, stackSize);
  }

  function OldStack(temporaryBase: Uintn, copySize: Uintn): int {
    temporaryBase + HeapSize(copySize)
  }

  /** Where the byte at `a` comes from: the stack goes to the bottom of the permanent area, the heap
      above it, and nothing else changes. */
  function Origin(a: int, temporaryBase: int, permanentBase: int, copySize: Uintn): int {
    var stackSize := copySize - HeapSize(copySize);
    if permanentBase <= a < permanentBase + stackSize then a - permanentBase + temporaryBase + HeapSize(copySize)
    else if permanentBase + stackSize <= a < permanentBase + copySize then a - permanentBase - stackSize + temporaryBase
    else a
  }

  /** Two areas inside RAM that do not meet, and an area large enough for its aligned heap. */
  predicate Movable(size: int, temporaryBase: Uintn, permanentBase: Uintn, copySize: Uintn) {
    && size <= UINTN_RANGE
    && temporaryBase + copySize <= size && permanentBase + copySize <= size
    && (temporaryBase + copySize <= permanentBase || permanentBase + copySize <= temporaryBase)
    && HeapSize(copySize) <= copySize
  }

  /** RAM after the move. */
  ghost predicate Moved(before: seq<Byte>, after: seq<Byte>, temporaryBase: Uintn, permanentBase: Uintn, copySize: Uintn)
    requires Movable(|before|, temporaryBase, permanentBase, copySize)
  {
    |after| == |before| &&
    forall a | 0 <= a < |before| :: after[a] == before[Origin(a, temporaryBase, permanentBase, copySize)]
  }

  /** The library's CopyMem, which allows overlap. */
  method CopyMem(ram: array<Byte>, destination: nat, source: nat, length: nat)
    requires destination + length <= ram.Length && source + length <= ram.Length
    modifies ram
    ensures forall a | 0 <= a < ram.Length ::
              ram[a] == if destination <= a < destination + length then old(ram[a - destination + source]) else old(ram[a])
  {
    forall i | 0 <= i < length {
      ram[destination + i] := ram[source + i];
    }
  }

  /** RAM is moved as Moved says, and the stack pointer is told how far its stack went. */
  method PrePeiCoreTemporaryRamSupport(ram: array<Byte>, temporaryBase: Uintn, permanentBase: Uintn, copySize: Uintn)
      returns (stackDelta: Uintn)
    requires Movable(ram.Length, temporaryBase, permanentBase, copySize)
    modifies ram
    ensures Moved(old(ram[..]), ram[..], temporaryBase, permanentBase, copySize)
    ensures stackDelta == Wrap(permanentBase - OldStack(temporaryBase, copySize))
  {
    hide Wrap;
    var heapSize := AlignValue(copySize / 2);
    var oldHeap := temporaryBase;
    var newHeap := permanentBase + (copySize - heapSize);
    var oldStack := temporaryBase + heapSize;
    var newStack := permanentBase;
    CopyMem(ram, newStack, oldStack, copySize - heapSize);
    CopyMem(ram, newHeap, oldHeap, heapSize);
    stackDelta := Wrap(newStack - oldStack);
  }

  /** After the move, new stack and new heap together are the permanent area, the stack below the heap,
      each as it was, and everything outside is as before. */
  lemma AreaIsRotated(before: seq<Byte>, after: seq<Byte>, temporaryBase: Uintn, permanentBase: Uintn, copySize: Uintn)
    requires Movable(|before|, temporaryBase, permanentBase, copySize)
    requires Moved(before, after, temporaryBase, permanentBase, copySize)
    ensures after[permanentBase..permanentBase + copySize] ==
            before[temporaryBase + HeapSize(copySize)..temporaryBase + copySize] +
            before[temporaryBase..temporaryBase + HeapSize(copySize)]
    ensures after[..permanentBase] == before[..permanentBase]
    ensures after[permanentBase + copySize..] == before[permanentBase + copySize..]
  {
    hide HeapSize;
  }

  /** Every byte of the old stack is where the moved stack pointer looks for it: inside the new stack,
      at the address its old one and the delta give, wrapping as the register does. */
  lemma StackFollowsPointer(before: seq<Byte>, after: seq<Byte>, temporaryBase: Uintn, permanentBase: Uintn,
                            copySize: Uintn, sp: Uintn)
    requires Movable(|before|, temporaryBase, permanentBase, copySize)
    requires Moved(before, after, temporaryBase, permanentBase, copySize)
    requires OldStack(temporaryBase, copySize) <= sp < temporaryBase + copySize
    ensures var sp' := Wrap(sp + Wrap(permanentBase - OldStack(temporaryBase, copySize)));
            && permanentBase <= sp' < permanentBase + copySize - HeapSize(copySize)
            && after[sp'] == before[sp]
  {
    hide HeapSize, Wrap;
    DeltaFollows(sp, permanentBase, OldStack(temporaryBase, copySize));
  }

  lemma DeltaFollows(sp: Uintn, newStack: Uintn, oldStack: int)
    requires 0 <= oldStack <= sp && newStack + (sp - oldStack) < UINTN_RANGE
    ensures Wrap(sp + Wrap(newStack - oldStack)) == newStack + (sp - oldStack)
  {
  }

  /** Every byte of the old heap is at its old place in the new heap. */
  lemma HeapKeepsItsPlace(before: seq<Byte>, after: seq<Byte>, temporaryBase: Uintn, permanentBase: Uintn,
                          copySize: Uintn, k: nat)
    requires Movable(|before|, temporaryBase, permanentBase, copySize)
    requires Moved(before, after, temporaryBase, permanentBase, copySize)
    requires k < HeapSize(copySize)
    ensures after[permanentBase + copySize - HeapSize(copySize) + k] == before[temporaryBase + k]
  {
    hide HeapSize;
  }
}
