/** Enumerating the nodes of a device tree by compatible string and by being memory, and adding the
    memory they describe to the memory map. */
module DeviceTree {
  import opened Bytes
  import opened StringLists

  /** A node is where it lies in the blob and what its properties hold. */
  datatype Node = Node(offset: int, properties: map<string, seq<Byte>>)

  /** The nodes in the order fdt_next_node walks them; the root lies at offset 0. */
  predicate Ordered(tree: seq<Node>) {
    && (forall i, j | 0 <= i < j < |tree| :: tree[i].offset < tree[j].offset)
    && (tree != [] ==> tree[0].offset == 0)
  }

  /** fdt_next_node: the index of the first node behind an offset. */
  function NextNode(tree: seq<Node>, previous: int): (i: Option<nat>)
    ensures i.Some? ==> i.value < |tree| && tree[i.value].offset > previous
    ensures i.Some? ==> forall j | 0 <= j < i.value :: tree[j].offset <= previous
    ensures i == None ==> forall j | 0 <= j < |tree| :: tree[j].offset <= previous
  {
    NextFrom(tree, previous, 0)
  }

  function NextFrom(tree: seq<Node>, previous: int, k: nat): (i: Option<nat>)
    requires k <= |tree|
    ensures i.Some? ==> k <= i.value < |tree| && tree[i.value].offset > previous
    ensures i.Some? ==> forall j | k <= j < i.value :: tree[j].offset <= previous
    ensures i == None ==> forall j | k <= j < |tree| :: tree[j].offset <= previous
    decreases |tree| - k
  {
    if k == |tree| then None else if tree[k].offset > previous then Some(k) else NextFrom(tree, previous, k + 1)
  }

  // ----- properties

  const STATUS_OKAY: seq<Byte> := [0x6F, 0x6B, 0x61, 0x79]
  const STATUS_OK: seq<Byte> := [0x6F, 0x6B]
  const TYPE_MEMORY: seq<Byte> := [0x6D, 0x65, 0x6D, 0x6F, 0x72, 0x79]

  /** IsNodeEnabled: no status means enabled; otherwise the status must be "okay" or "ok", NUL included. */
  predicate IsNodeEnabled(n: Node) {
    if "status" !in n.properties then true
    else
      var status := n.properties["status"];
      (|status| >= 5 && CString(status) == STATUS_OKAY) || (|status| >= 3 && CString(status) == STATUS_OK)
  }

  predicate Compatible(n: Node, s: seq<Byte>) {
    IsNodeEnabled(n) && "compatible" in n.properties && s in Strings(n.properties["compatible"])
  }

  /** A memory node that is used: enabled, of the right type, with a reg of whole 16-byte entries. */
  predicate UsableMemory(n: Node) {
    && IsNodeEnabled(n)
    && "device_type" in n.properties && CString(n.properties["device_type"]) == TYPE_MEMORY
    && "reg" in n.properties && |n.properties["reg"]| % 16 == 0
  }

  // ----- enumeration

  /** The node returned is the first behind `previous` that satisfies the predicate, by offset. */
  ghost predicate FirstBehind(tree: seq<Node>, previous: int, wanted: Node -> bool, found: Option<nat>) {
    match found
    case None => forall j | 0 <= j < |tree| && tree[j].offset > previous :: !wanted(tree[j])
    case Some(i) =>
      && i < |tree| && tree[i].offset > previous && wanted(tree[i])
      && forall j | 0 <= j < i && tree[j].offset > previous :: !wanted(tree[j])
  }

  /** The inner loop of FindNextCompatibleNode over one property. */
  method ListsString(prop: seq<Byte>, compatibleString: seq<Byte>) returns (lists: bool)
    ensures lists == (compatibleString in Strings(prop))
  {
    hide Strings, CString;
    var p := 0;
    assert prop[0..] == prop;
    while p < |prop| && prop[p] != NUL
      invariant p <= |prop|
      invariant compatibleString in Strings(prop) <==> compatibleString in Strings(prop[p..])
      decreases |prop| - p
    {
      var compatible := CString(prop[p..]);
      StringsStep(prop, p);
      if compatibleString == compatible {
        return true;
      }
      if p + |compatible| == |prop| {
        return false;
      }
      p := p + 1 + |compatible|;
    }
    StringsStep(prop, p);
    return false;
  }

  method FindNextCompatibleNode(tree: seq<Node>, compatibleString: seq<Byte>, previousNode: int)
      returns (node: Option<nat>)
    requires Ordered(tree)
    ensures FirstBehind(tree, previousNode, n => Compatible(n, compatibleString), node)
  {
    var prev := previousNode;
    while true
      invariant previousNode <= prev
      invariant forall j | 0 <= j < |tree| && previousNode < tree[j].offset <= prev :: !Compatible(tree[j], compatibleString)
      decreases set j | 0 <= j < |tree| && tree[j].offset > prev
    {
      var next := NextNode(tree, prev);
      if next == None {
        break;
      }
      var n := tree[next.value];
      ghost var ahead := set j | 0 <= j < |tree| && tree[j].offset > prev;
      assert next.value in ahead;
      prev := n.offset;
      if !IsNodeEnabled(n) || "compatible" !in n.properties {
        continue;
      }
      var lists := ListsString(n.properties["compatible"], compatibleString);
      if lists {
        return next;
      }
    }
    return None;
  }

  /** The offsets of the nodes behind the root, up to index k, that are compatible, in order. */
  function Matches(tree: seq<Node>, k: nat, wanted: Node -> bool): seq<nat>
    requires k <= |tree|
  {
    if k == 0 then []
    else Matches(tree, k - 1, wanted) + if tree[k - 1].offset > 0 && wanted(tree[k - 1]) then [k - 1] else []
  }

  lemma {:induction false} NoMatchesBetween(tree: seq<Node>, j: nat, k: nat, wanted: Node -> bool)
    requires j <= k <= |tree|
    requires forall i | j <= i < k :: !(tree[i].offset > 0 && wanted(tree[i]))
    ensures Matches(tree, k, wanted) == Matches(tree, j, wanted)
  {
    if j < k {
      NoMatchesBetween(tree, j, k - 1, wanted);
    }
  }

  /** The next of an enumeration extends the matches by itself alone. */
  lemma FirstBehindIsNextMatch(tree: seq<Node>, at: nat, wanted: Node -> bool, found: Option<nat>)
    requires Ordered(tree) && at < |tree|
    requires FirstBehind(tree, tree[at].offset, wanted, found)
    ensures found.Some? ==> at < found.value && Matches(tree, found.value + 1, wanted) == Matches(tree, at + 1, wanted) + [found.value]
    ensures found == None ==> Matches(tree, |tree|, wanted) == Matches(tree, at + 1, wanted)
  {
    assert forall i | at < i < |tree| :: tree[i].offset > tree[at].offset;
    if found.Some? {
      assert at < found.value;
      NoMatchesBetween(tree, at + 1, found.value, wanted);
    } else {
      NoMatchesBetween(tree, at + 1, |tree|, wanted);
    }
  }

  /** FindCompatibleNode, then FindNextCompatibleNode until it fails, visits exactly the enabled nodes
      other than the root that list the string, each once, in tree order. */
  method EnumerateCompatible(tree: seq<Node>, compatibleString: seq<Byte>) returns (visited: seq<nat>)
    requires Ordered(tree) && tree != []
    ensures visited == Matches(tree, |tree|, n => Compatible(n, compatibleString))
  {
    ghost var wanted := n => Compatible(n, compatibleString);
    visited := [];
    var node := FindNextCompatibleNode(tree, compatibleString, 0);
    ghost var at := 0;
    assert Matches(tree, 1, wanted) == [];
    FirstBehindIsNextMatch(tree, at, wanted, node);
    while node != None
      invariant at < |tree| && visited == Matches(tree, at + 1, wanted)
      invariant FirstBehind(tree, tree[at].offset, wanted, node)
      decreases |tree| - at, node.Some?
    {
      FirstBehindIsNextMatch(tree, at, wanted, node);
      visited := visited + [node.value];
      at := node.value;
      node := FindNextCompatibleNode(tree, compatibleString, tree[node.value].offset);
    }
    FirstBehindIsNextMatch(tree, at, wanted, node);
  }

  /** A property that is absent, or was written as a string. */
  ghost predicate Written(n: Node, name: string) {
    name in n.properties ==> exists t :: NUL !in t && n.properties[name] == t + [NUL]
  }

  predicate Says(n: Node, name: string, text: string) {
    name in n.properties && n.properties[name] == Ascii(text) + [NUL]
  }

  lemma StringOfProperty(n: Node, name: string, text: string)
    requires name in n.properties && Written(n, name) && NUL !in Ascii(text)
    ensures |n.properties[name]| > |text| && CString(n.properties[name]) == Ascii(text) <==> Says(n, name, text)
    ensures CString(n.properties[name]) == Ascii(text) ==> |n.properties[name]| == |text| + 1
  {
    var t :| NUL !in t && n.properties[name] == t + [NUL];
    assert t + [NUL] + [] == t + [NUL];
    CStringStopsAtNul(t, []);
    CStringOfPlain(t);
    assert (t + [NUL])[..|t|] == t && (Ascii(text) + [NUL])[..|text|] == Ascii(text);
  }

  /** A node is enabled if it has no status, or "okay", or "ok". */
  lemma EnabledIffOkay(n: Node)
    requires Written(n, "status")
    ensures IsNodeEnabled(n) <==> "status" !in n.properties || Says(n, "status", "okay") || Says(n, "status", "ok")
  {
    if "status" in n.properties {
      StatusTexts();
      StringOfProperty(n, "status", "okay");
      StringOfProperty(n, "status", "ok");
    }
  }

  lemma StatusTexts()
    ensures STATUS_OKAY == Ascii("okay") && STATUS_OK == Ascii("ok") && TYPE_MEMORY == Ascii("memory")
    ensures NUL !in Ascii("okay") && NUL !in Ascii("ok") && NUL !in Ascii("memory")
  {
  }

  /** What a node is to the enumeration, by what it was written from. */
  lemma CompatibleIffListed(n: Node, strings: seq<seq<Byte>>, s: seq<Byte>)
    requires ProperStrings(strings) && Written(n, "status")
    requires "compatible" in n.properties ==> n.properties["compatible"] == Encode(strings)
    ensures Compatible(n, s) <==>
            && "compatible" in n.properties && s in strings
            && ("status" !in n.properties || Says(n, "status", "okay") || Says(n, "status", "ok"))
  {
    hide IsNodeEnabled, Encode, Says;
    EnabledIffOkay(n);
    ListReadsBack(strings, []);
    assert Encode(strings) + [] == Encode(strings);
  }

  /** And what it is as memory. */
  lemma UsableIffMemory(n: Node)
    requires Written(n, "status") && Written(n, "device_type")
    ensures UsableMemory(n) <==>
            && ("status" !in n.properties || Says(n, "status", "okay") || Says(n, "status", "ok"))
            && Says(n, "device_type", "memory")
            && "reg" in n.properties && |n.properties["reg"]| % 16 == 0
  {
    hide IsNodeEnabled;
    EnabledIffOkay(n);
    StatusTexts();
    if "device_type" in n.properties {
      StringOfProperty(n, "device_type", "memory");
    }
  }

  // ----- memory nodes

  method FindNextMemoryNodeReg(tree: seq<Node>, previousNode: int) returns (node: Option<nat>)
    requires Ordered(tree)
    ensures FirstBehind(tree, previousNode, UsableMemory, node)
  {
    var prev := previousNode;
    while true
      invariant previousNode <= prev
      invariant forall j | 0 <= j < |tree| && previousNode < tree[j].offset <= prev :: !UsableMemory(tree[j])
      decreases set j | 0 <= j < |tree| && tree[j].offset > prev
    {
      var next := NextNode(tree, prev);
      if next == None {
        break;
      }
      var n := tree[next.value];
      ghost var ahead := set j | 0 <= j < |tree| && tree[j].offset > prev;
      assert next.value in ahead;
      prev := n.offset;
      if !IsNodeEnabled(n) {
        continue;
      }
      if "device_type" in n.properties && CString(n.properties["device_type"]) == TYPE_MEMORY {
        if "reg" !in n.properties {
          continue;
        }
        if |n.properties["reg"]| % 16 != 0 {
          continue;
        }
        return next;
      }
    }
    return None;
  }

  // ----- cells

  /** A little-endian load, as the processor does it. */
  function Load32(b: seq<Byte>, p: nat): Uint32
    requires p + 4 <= |b|
  {
    var b0: int, b1: int, b2: int, b3: int := b[p], b[p + 1], b[p + 2], b[p + 3];
    b0 + 0x100 * (b1 + 0x100 * (b2 + 0x100 * b3))
  }

  function SwapBytes32(n: Uint32): Uint32 {
    var q0: int := n;
    var q1 := q0 / 0x100;
    var q2 := q1 / 0x100;
    var q3 := q2 / 0x100;
    ((q0 % 0x100 * 0x100 + q1 % 0x100) * 0x100 + q2 % 0x100) * 0x100 + q3
  }

  /** The four bytes of a cell, highest first. */
  function EncodeCell(n: Uint32): (b: seq<Byte>)
    ensures |b| == 4
  {
    var q1 := n / 0x100;
    var q2 := q1 / 0x100;
    [q2 / 0x100, q2 % 0x100, q1 % 0x100, n % 0x100]
  }

  lemma LowByte(b: Byte, q: nat)
    ensures (b + 0x100 * q) % 0x100 == b && (b + 0x100 * q) / 0x100 == q
  {
  }

  lemma SwappedLoadIsBigEndian(b: seq<Byte>, p: nat)
    requires p + 4 <= |b|
    ensures SwapBytes32(Load32(b, p)) ==
            ((b[p] as int * 0x100 + b[p + 1]) * 0x100 + b[p + 2]) * 0x100 + b[p + 3]
  {
    var b0: int, b1: int, b2: int, b3: int := b[p], b[p + 1], b[p + 2], b[p + 3];
    LowByte(b[p + 2], b3);
    LowByte(b[p + 1], b2 + 0x100 * b3);
    LowByte(b[p], b1 + 0x100 * (b2 + 0x100 * b3));
  }

  lemma CellRoundTrip(n: Uint32, b: seq<Byte>, p: nat)
    requires p + 4 <= |b| && b[p..p + 4] == EncodeCell(n)
    ensures SwapBytes32(Load32(b, p)) == n
  {
    hide SwapBytes32, Load32;
    var cell := b[p..p + 4];
    assert b[p] == cell[0] && b[p + 1] == cell[1] && b[p + 2] == cell[2] && b[p + 3] == cell[3];
    SwappedLoadIsBigEndian(b, p);
  }

  datatype Range = Range(base: Uintn, size: Uintn)

  /** A range as two cells of base and two of size, each 64-bit number with its high cell first. */
  function EncodeRange(r: Range): (b: seq<Byte>)
    ensures |b| == 16
  {
    EncodeCell(r.base / 0x1_0000_0000) + EncodeCell(r.base % 0x1_0000_0000) +
    EncodeCell(r.size / 0x1_0000_0000) + EncodeCell(r.size % 0x1_0000_0000)
  }

  function EncodeReg(ranges: seq<Range>): (b: seq<Byte>)
    ensures |b| == 16 * |ranges|
  {
    if ranges == [] then [] else EncodeRange(ranges[0]) + EncodeReg(ranges[1..])
  }

  /** (high << 32) | low, which for two 32-bit halves is a sum. */
  function Join(high: Uint32, low: Uint32): Uintn {
    high * 0x1_0000_0000 + low
  }

  function DecodeRange(reg: seq<Byte>, p: nat): Range
    requires p + 16 <= |reg|
  {
    Range(Join(SwapBytes32(Load32(reg, p)), SwapBytes32(Load32(reg, p + 4))),
          Join(SwapBytes32(Load32(reg, p + 8)), SwapBytes32(Load32(reg, p + 12))))
  }

  function DecodeReg(reg: seq<Byte>, p: nat): seq<Range>
    requires p <= |reg| && (|reg| - p) % 16 == 0
    decreases |reg| - p
  {
    if p == |reg| then [] else [DecodeRange(reg, p)] + DecodeReg(reg, p + 16)
  }

  lemma RangeRoundTrip(r: Range, b: seq<Byte>, p: nat)
    requires p + 16 <= |b| && b[p..p + 16] == EncodeRange(r)
    ensures DecodeRange(b, p) == r
  {
    hide SwapBytes32, Load32, EncodeCell;
    var e := EncodeRange(r);
    SubSlice(b, p, p + 16, 0, 4);
    SubSlice(b, p, p + 16, 4, 8);
    SubSlice(b, p, p + 16, 8, 12);
    SubSlice(b, p, p + 16, 12, 16);
    CellRoundTrip(r.base / 0x1_0000_0000, b, p);
    CellRoundTrip(r.base % 0x1_0000_0000, b, p + 4);
    CellRoundTrip(r.size / 0x1_0000_0000, b, p + 8);
    CellRoundTrip(r.size % 0x1_0000_0000, b, p + 12);
  }

  lemma SubSlice(b: seq<Byte>, p: nat, q: nat, i: nat, j: nat)
    requires p <= q <= |b| && i <= j <= q - p
    ensures b[p..q][i..j] == b[p + i..p + j]
  {
    var inner, outer := b[p..q][i..j], b[p + i..p + j];
    forall k | 0 <= k < j - i ensures inner[k] == outer[k] {
      assert inner[k] == b[p..q][i + k] == b[p + i + k];
    }
  }

  /** The decoder undoes the encoder, for all 64-bit bases and sizes. */
  lemma {:induction false} RegRoundTrip(ranges: seq<Range>, b: seq<Byte>, p: nat)
    requires p <= |b| && b[p..] == EncodeReg(ranges)
    ensures (|b| - p) % 16 == 0 && DecodeReg(b, p) == ranges
    decreases |ranges|
  {
    hide EncodeRange, DecodeRange;
    if ranges != [] {
      assert b[p..p + 16] == b[p..][..16] == EncodeRange(ranges[0]);
      RangeRoundTrip(ranges[0], b, p);
      assert b[p + 16..] == b[p..][16..] == EncodeReg(ranges[1..]);
      RegRoundTrip(ranges[1..], b, p + 16);
    }
  }

  // ----- the memory map

  predicate Overlap(r: Range, s: Range) {
    r.base < s.base + s.size && s.base < r.base + r.size
  }

  predicate Holds(held: seq<Range>, address: int) {
    exists r | r in held :: r.base <= address < r.base + r.size
  }

  predicate Addable(held: seq<Range>, limit: nat, r: Range) {
    r.size > 0 && r.base + r.size <= limit && forall s | s in held :: !Overlap(r, s)
  }

  /** What becomes of one decoded range: it is added if its base is a known address that holds nothing,
      and if the map takes it. */
  function AddRange(held: seq<Range>, limit: nat, r: Range): seq<Range> {
    if r.base < limit && !Holds(held, r.base) && Addable(held, limit, r) then held + [r] else held
  }

  function AddRanges(held: seq<Range>, limit: nat, ranges: seq<Range>): seq<Range>
    decreases |ranges|
  {
    if ranges == [] then held else AddRanges(AddRange(held, limit, ranges[0]), limit, ranges[1..])
  }

  lemma {:induction false} AddRangesConcat(held: seq<Range>, limit: nat, a: seq<Range>, b: seq<Range>)
    ensures AddRanges(held, limit, a + b) == AddRanges(AddRanges(held, limit, a), limit, b)
    decreases |a|
  {
    if a == [] {
      assert a + b == b;
    } else {
      assert (a + b)[1..] == a[1..] + b;
      AddRangesConcat(AddRange(held, limit, a[0]), limit, a[1..], b);
    }
  }

  /** The ranges a node describes, if it is a usable memory node. */
  function NodeRanges(tree: seq<Node>, i: nat): seq<Range> {
    if i < |tree| && UsableMemory(tree[i]) then DecodeReg(tree[i].properties["reg"], 0) else []
  }

  /** All ranges of some nodes, in order. */
  function MemoryRanges(tree: seq<Node>, nodes: seq<nat>): seq<Range> {
    if nodes == [] then []
    else MemoryRanges(tree, nodes[..|nodes| - 1]) + NodeRanges(tree, nodes[|nodes| - 1])
  }

  lemma MemoryRangesGrow(tree: seq<Node>, nodes: seq<nat>, j: nat)
    ensures MemoryRanges(tree, nodes + [j]) == MemoryRanges(tree, nodes) + NodeRanges(tree, j)
  {
    assert (nodes + [j])[..|nodes|] == nodes;
  }

  function Flatten(lists: seq<seq<Range>>): seq<Range> {
    if lists == [] then [] else Flatten(lists[..|lists| - 1]) + lists[|lists| - 1]
  }

  /** What was written into the reg properties is what is decoded, node by node, range by range. */
  lemma {:induction false} MemoryRangesAsWritten(tree: seq<Node>, nodes: seq<nat>, written: seq<seq<Range>>)
    requires forall i | i in nodes :: i < |tree| && UsableMemory(tree[i])
    requires |written| == |nodes|
    requires forall k | 0 <= k < |nodes| :: nodes[k] < |tree| && "reg" in tree[nodes[k]].properties &&
               tree[nodes[k]].properties["reg"] == EncodeReg(written[k])
    ensures MemoryRanges(tree, nodes) == Flatten(written)
    decreases |nodes|
  {
    hide EncodeReg, UsableMemory, NodeRanges;
    if nodes != [] {
      var n := |nodes| - 1;
      assert nodes[n] in nodes && forall i | i in nodes[..n] :: i in nodes;
      NodeAsWritten(tree, nodes[n], written[n]);
      MemoryRangesAsWritten(tree, nodes[..n], written[..n]);
    }
  }

  lemma NodeAsWritten(tree: seq<Node>, i: nat, ranges: seq<Range>)
    requires i < |tree| && UsableMemory(tree[i]) && "reg" in tree[i].properties
    requires tree[i].properties["reg"] == EncodeReg(ranges)
    ensures NodeRanges(tree, i) == ranges
  {
    hide DecodeReg, EncodeReg, IsNodeEnabled, CString;
    var reg := tree[i].properties["reg"];
    assert reg[0..] == reg;
    RegRoundTrip(ranges, reg, 0);
  }

  lemma {:induction false} MatchesAreUsable(tree: seq<Node>, k: nat)
    requires k <= |tree|
    ensures forall i | i in Matches(tree, k, UsableMemory) :: i < |tree| && UsableMemory(tree[i])
  {
    if k > 0 {
      MatchesAreUsable(tree, k - 1);
    }
  }

  /** A disabled node, and one that is no memory, adds nothing to what the driver asks about. */
  lemma OnlyUsableMemoryIsOffered(tree: seq<Node>, i: nat)
    requires i < |tree| && Written(tree[i], "status") && Written(tree[i], "device_type")
    requires || ("status" in tree[i].properties && !Says(tree[i], "status", "okay") && !Says(tree[i], "status", "ok"))
             || !Says(tree[i], "device_type", "memory")
    ensures NodeRanges(tree, i) == [] && i !in Matches(tree, |tree|, UsableMemory)
  {
    hide UsableMemory, Says;
    UsableIffMemory(tree[i]);
    MatchesAreUsable(tree, |tree|);
  }

  predicate Separate(held: seq<Range>) {
    forall i, j | 0 <= i < j < |held| :: !Overlap(held[i], held[j])
  }

  predicate Useful(held: seq<Range>, limit: nat, ranges: seq<Range>) {
    && (forall r | r in ranges :: r.size > 0 && r.base + r.size <= limit)
    && Separate(held + ranges)
  }

  /** If what the tree describes lies in the address space and meets neither itself nor what the map
      holds, all of it is added, once, in order. */
  lemma {:induction false} UsefulRangesAreAllAdded(held: seq<Range>, limit: nat, ranges: seq<Range>)
    requires Useful(held, limit, ranges)
    ensures AddRanges(held, limit, ranges) == held + ranges
    decreases |ranges|
  {
    if ranges == [] {
      assert held + ranges == held;
    } else {
      var all, r := held + ranges, ranges[0];
      assert all[|held|] == r && r in ranges;
      forall s | s in held ensures !Overlap(r, s) {
        var i :| 0 <= i < |held| && held[i] == s;
        assert all[i] == s;
      }
      assert AddRange(held, limit, r) == held + [r];
      assert held + [r] + ranges[1..] == all;
      UsefulRangesAreAllAdded(held + [r], limit, ranges[1..]);
    }
  }

  lemma DecodeOneMore(reg: seq<Byte>, p: nat)
    requires p < |reg| && (|reg| - p) % 16 == 0
    ensures p + 16 <= |reg| && DecodeReg(reg, p) == [DecodeRange(reg, p)] + DecodeReg(reg, p + 16)
  {
  }

  lemma DecodeAtEnd(reg: seq<Byte>)
    ensures DecodeReg(reg, |reg|) == []
  {
  }

  lemma AddNothing(held: seq<Range>, limit: nat)
    ensures AddRanges(held, limit, []) == held
  {
  }

  lemma AddOneMore(held: seq<Range>, limit: nat, r: Range, ranges: seq<Range>)
    ensures AddRanges(held, limit, [r] + ranges) == AddRanges(AddRange(held, limit, r), limit, ranges)
  {
    assert ([r] + ranges)[1..] == ranges;
  }

  lemma NextMemoryNode(tree: seq<Node>, at: nat, node: nat) returns (more: seq<Range>)
    requires Ordered(tree) && at < |tree| && FirstBehind(tree, tree[at].offset, UsableMemory, Some(node))
    ensures at < node < |tree| && UsableMemory(tree[node]) && more == NodeRanges(tree, node)
    ensures MemoryRanges(tree, Matches(tree, node + 1, UsableMemory)) ==
            MemoryRanges(tree, Matches(tree, at + 1, UsableMemory)) + more
  {
    hide NodeRanges, UsableMemory;
    FirstBehindIsNextMatch(tree, at, UsableMemory, Some(node));
    MemoryRangesGrow(tree, Matches(tree, at + 1, UsableMemory), node);
    more := NodeRanges(tree, node);
  }

  class MemoryMap {
    var regions: seq<Range>
    const limit: nat

    /** Every range the driver has asked about, in order, whether or not the map took it. */
    ghost var offered: seq<Range>

    constructor (limit: nat)
      ensures this.limit == limit && regions == [] && offered == []
    {
      this.limit, regions, offered := limit, [], [];
    }

    /** The address is unknown, or holds nothing, or holds something. */
    method GetMemorySpaceDescriptor(base: Uintn) returns (known: bool, nonExistent: bool)
      ensures known == (base < limit) && nonExistent == !Holds(regions, base)
    {
      known := base < limit;
      nonExistent := !Holds(regions, base);
    }

    method AddMemorySpace(base: Uintn, size: Uintn) returns (ok: bool)
      modifies `regions
      ensures ok == Addable(old(regions), limit, Range(base, size))
      ensures regions == if ok then old(regions) + [Range(base, size)] else old(regions)
    {
      ok := Addable(regions, limit, Range(base, size));
      if ok {
        regions := regions + [Range(base, size)];
      }
    }

    /** The inner loop: it takes 16 bytes a turn and ends at exactly 0. */
    method AddNodeMemory(reg: seq<Byte>)
      requires |reg| % 16 == 0
      modifies this
      ensures offered == old(offered) + DecodeReg(reg, 0)
      ensures regions == AddRanges(old(regions), limit, DecodeReg(reg, 0))
    {
      hide SwapBytes32, Load32, Join, AddRange, AddRanges, DecodeReg;
      var p, regSize: int := 0, |reg|;
      while regSize > 0
        invariant 0 <= regSize && p + regSize == |reg| && regSize % 16 == 0
        invariant offered + DecodeReg(reg, p) == old(offered) + DecodeReg(reg, 0)
        invariant AddRanges(regions, limit, DecodeReg(reg, p)) == AddRanges(old(regions), limit, DecodeReg(reg, 0))
        decreases regSize
      {
        ghost var before, asked, rest := regions, offered, DecodeReg(reg, p + 16);
        var curBase: Uintn := SwapBytes32(Load32(reg, p));
        curBase := Join(curBase, SwapBytes32(Load32(reg, p + 4)));
        var curSize: Uintn := SwapBytes32(Load32(reg, p + 8));
        curSize := Join(curSize, SwapBytes32(Load32(reg, p + 12)));
        DecodeOneMore(reg, p);
        p, regSize := p + 16, regSize - 16;
        AddOneMore(before, limit, Range(curBase, curSize), rest);
        assert asked + [Range(curBase, curSize)] + rest == asked + ([Range(curBase, curSize)] + rest);
        OfferRange(curBase, curSize);
      }
      DecodeAtEnd(reg);
      AddNothing(regions, limit);
      assert offered + [] == offered;
    }

    /** The body of the inner loop behind the decoding. */
    method OfferRange(curBase: Uintn, curSize: Uintn)
      modifies this
      ensures offered == old(offered) + [Range(curBase, curSize)]
      ensures regions == AddRange(old(regions), limit, Range(curBase, curSize))
    {
      offered := offered + [Range(curBase, curSize)];
      var known, nonExistent := GetMemorySpaceDescriptor(curBase);
      if !known {
        return;
      }
      if nonExistent {
        var ok := AddMemorySpace(curBase, curSize);
      }
    }

    /** Every pair of every usable memory node is decoded once, in tree order, and offered to the map. */
    method InitializeHighMemDxe(tree: seq<Node>)
      requires Ordered(tree) && tree != []
      modifies this
      ensures var nodes := Matches(tree, |tree|, UsableMemory);
              && (forall i | i in nodes :: i < |tree| && UsableMemory(tree[i]))
              && offered == old(offered) + MemoryRanges(tree, nodes)
              && regions == AddRanges(old(regions), limit, MemoryRanges(tree, nodes))
    {
      hide DecodeReg, AddRanges, IsNodeEnabled, CString, NodeRanges;
      AddNothing(regions, limit);
      ghost var wanted := UsableMemory;
      var node := FindNextMemoryNodeReg(tree, 0);
      ghost var at := 0;
      assert Matches(tree, 1, wanted) == [];
      assert MemoryRanges(tree, []) == [] && offered + [] == offered;
      hide Matches, MemoryRanges, UsableMemory, FirstBehind;
      while node != None
        invariant at < |tree| && FirstBehind(tree, tree[at].offset, wanted, node)
        invariant var ranges := MemoryRanges(tree, Matches(tree, at + 1, wanted));
                  offered == old(offered) + ranges && regions == AddRanges(old(regions), limit, ranges)
        decreases |tree| - at, node.Some?
      {
        ghost var before := MemoryRanges(tree, Matches(tree, at + 1, wanted));
        ghost var more := NextMemoryNode(tree, at, node.value);
        AddRangesConcat(old(regions), limit, before, more);
        assert old(offered) + before + more == old(offered) + (before + more);
        AddNodeMemory(RegOf(tree, node.value));
        at := node.value;
        node := FindNextMemoryNodeReg(tree, tree[node.value].offset);
      }
      FirstBehindIsNextMatch(tree, at, wanted, node);
      MatchesAreUsable(tree, |tree|);
    }
  }

  function RegOf(tree: seq<Node>, i: nat): (reg: seq<Byte>)
    requires i < |tree| && UsableMemory(tree[i])
    ensures |reg| % 16 == 0 && DecodeReg(reg, 0) == NodeRanges(tree, i)
  {
    tree[i].properties["reg"]
  }
}
