/** The (tag, num) index that the bank walker fills and `getBank` reads. */
module EvioIndex {
  import opened MachineInts
  import opened Slices
  import opened EvioBanks

  /** One index entry; `data` is the word index the stored pointer refers to. */
  datatype BankInfo = BankInfo(header: Word, length: Word, data: nat)

  /** The map key of a pair; a tag of more than 16 bits loses its high bits. */
  function HashOf(tag: Word, num: Byte): (key: Word) {
    (tag * 0x1_0000) % TWO32 + num
  }

  function TagOf(info: BankInfo): int { info.header / 0x1_0000 }
  function TypeOf(info: BankInfo): int { (info.header / 0x100) % 0x40 }
  function NumOf(info: BankInfo): int { info.header % 0x100 }

  /** What every leaf the walker can report satisfies: its fields come from bit fields, its count is an `int`. */
  predicate Reportable(leaf: LeafCall) {
    && 0 <= leaf.tag < 0x1_0000 && 0 <= leaf.num < 0x100 && 0 <= leaf.contentType < 0x40
    && -0x8000_0000 <= leaf.count <= INT_MAX
  }

  predicate AllReportable(leaves: seq<LeafCall>) {
    forall i :: 0 <= i < |leaves| ==> Reportable(leaves[i])
  }

  function InfoOf(leaf: LeafCall): (info: BankInfo)
    requires Reportable(leaf)
    ensures TagOf(info) == leaf.tag && TypeOf(info) == leaf.contentType && NumOf(info) == leaf.num
  {
    BankFields(leaf.tag, 0, leaf.contentType, leaf.num);
    BankInfo(leaf.tag * 0x1_0000 + leaf.contentType * 0x100 + leaf.num, ToUInt32(leaf.count), leaf.data)
  }

  type Index = map<Word, BankInfo>

  /** The index after the leaf handler has been called for each leaf in turn. */
  function Indexed(index: Index, leaves: seq<LeafCall>): Index
    requires AllReportable(leaves)
  {
    if leaves == [] then index
    else
      var last := leaves[|leaves| - 1];
      Indexed(index, leaves[..|leaves| - 1])[HashOf(last.tag, last.num) := InfoOf(last)]
  }

  lemma {:induction false} IndexedConcat(index: Index, a: seq<LeafCall>, b: seq<LeafCall>)
    requires AllReportable(a) && AllReportable(b)
    ensures AllReportable(a + b)
    ensures Indexed(index, a + b) == Indexed(Indexed(index, a), b)
  {
    if b == [] {
      assert a + b == a;
    } else {
      IndexedConcat(index, a, b[..|b| - 1]);
      assert (a + b)[..|a + b| - 1] == a + b[..|b| - 1];
    }
  }

  /** Indexing leaves puts the index they make on top of what was there. */
  lemma {:induction false} IndexedOver(index: Index, leaves: seq<LeafCall>)
    requires AllReportable(leaves)
    ensures Indexed(index, leaves) == index + Indexed(map[], leaves)
  {
    hide HashOf, InfoOf;
    if leaves == [] {
      assert index + map[] == index;
    } else {
      IndexedOver(index, leaves[..|leaves| - 1]);
    }
  }

  /**
   Reporting leaves again changes nothing: in a loop that never ends the index is complete after the
   first round.
   */
  lemma RepeatsChangeNothing(index: Index, leaves: seq<LeafCall>)
    requires AllReportable(leaves)
    ensures Indexed(Indexed(index, leaves), leaves) == Indexed(index, leaves)
  {
    hide Indexed;
    IndexedOver(index, leaves);
    IndexedOver(Indexed(index, leaves), leaves);
  }

  lemma HeaderIsReportable(buf: seq<Word>, at: nat, e: Encoding)
    requires at + HeaderWords(e) <= |buf|
    ensures var h := ReadHeader(buf, at, e);
            0 <= h.tag < 0x1_0000 && 0 <= h.num < 0x100 && 0 <= h.contentType < 0x40
  {
  }

  lemma CountIsInt(contentType: int, words: int, padding: int)
    requires -0x8000_0000 <= words <= INT_MAX
    ensures -0x8000_0000 <= ElementCount(contentType, words, padding) <= INT_MAX
  {
  }

  lemma {:induction false} WalkIsReportable(buf: seq<Word>, at: nat, bankType: int, depth: int)
    ensures AllReportable(Walk(buf, at, bankType, depth).leaves)
    decreases if at < |buf| then |buf| - at else 0, 0
  {
    hide ReadHeader, ElementCount;
    var e := EncodingOf(bankType);
    if e.Some? && at + HeaderWords(e.value) <= |buf| {
      HeaderIsReportable(buf, at, e.value);
      var h := ReadHeader(buf, at, e.value);
      CountIsInt(h.contentType, BankLen(h, e.value), h.padding);
      if ContentOf(h.contentType).Container? {
        WalkChildrenIsReportable(buf, at + HeaderWords(e.value), 0, BankLen(h, e.value), h.contentType, depth + 1);
      }
    }
  }

  lemma {:induction false} WalkChildrenIsReportable(buf: seq<Word>, data: nat, p: nat, bankLen: int,
                                                    contentType: int, depth: int)
    ensures AllReportable(WalkChildren(buf, data, p, bankLen, contentType, depth).0.leaves)
    decreases if data + p < |buf| then |buf| - data - p else 0, 1
  {
    if p >= bankLen {
    } else {
      WalkIsReportable(buf, data + p, contentType, depth);
      if Walk(buf, data + p, contentType, depth).outcome == Returned && Advance(p, buf[data + p], contentType) > p {
        WalkChildrenIsReportable(buf, data, Advance(p, buf[data + p], contentType), bankLen, contentType, depth);
      }
    }
  }

  /** Indexing the leaves `rest` on top of `index` gives what indexing all of `all` on `start` does. */
  ghost predicate Completes(index: Index, rest: Report, start: Index, all: Report) {
    && AllReportable(rest.leaves) && AllReportable(all.leaves)
    && rest.outcome == all.outcome && Indexed(index, rest.leaves) == Indexed(start, all.leaves)
  }

  /** What one round of a container's loop does to the index. */
  lemma ChildStep(index: Index, buf: seq<Word>, data: nat, p: nat, bankLen: int, contentType: int, depth: int,
                  start: Index, all: Report)
    requires p < bankLen && Completes(index, WalkChildren(buf, data, p, bankLen, contentType, depth).0, start, all)
    ensures var here := Walk(buf, data + p, contentType, depth);
            && AllReportable(here.leaves)
            && var after := Indexed(index, here.leaves);
               if here.outcome != Returned then Completes(after, Report([], here.outcome), start, all)
               else
                 var next := Advance(p, buf[data + p], contentType);
                 if next <= p then
                   Completes(after, Report([], if next == p then NeverReturns else TurnsBack), start, all)
                 else Completes(after, WalkChildren(buf, data, next, bankLen, contentType, depth).0, start, all)
  {
    hide Walk, WalkChildren, Advance;
    var here := Walk(buf, data + p, contentType, depth);
    WalkIsReportable(buf, data + p, contentType, depth);
    WalkChildrenUnfolds(buf, data, p, bankLen, contentType, depth);
    if here.outcome == Returned && Advance(p, buf[data + p], contentType) > p {
      var next := Advance(p, buf[data + p], contentType);
      WalkChildrenIsReportable(buf, data, next, bankLen, contentType, depth);
      IndexedConcat(index, here.leaves, WalkChildren(buf, data, next, bankLen, contentType, depth).0.leaves);
    }
  }

  lemma WalkRefuses(index: Index, buf: seq<Word>, at: nat, bankType: int, depth: int)
    ensures Indexed(index, []) == index
    ensures EncodingOf(bankType) == None ==> Walk(buf, at, bankType, depth) == Report([], IllegalBankType)
    ensures EncodingOf(bankType).Some? && at + HeaderWords(EncodingOf(bankType).value) > |buf|
        ==> Walk(buf, at, bankType, depth) == Report([], OutOfBuffer)
  {
    hide ReadHeader, ElementCount;
  }

  lemma LoopStarts(index: Index, buf: seq<Word>, data: nat, bankLen: int, contentType: int, depth: int)
    ensures var all := WalkChildren(buf, data, 0, bankLen, contentType, depth).0;
            Completes(index, all, index, all)
  {
    WalkChildrenIsReportable(buf, data, 0, bankLen, contentType, depth);
  }

  lemma LoopEnds(buf: seq<Word>, data: nat, p: nat, bankLen: int, contentType: int, depth: int)
    requires p >= bankLen
    ensures WalkChildren(buf, data, p, bankLen, contentType, depth).0 == Report([], Returned)
  {
  }

  lemma Completed(index: Index, outcome: Outcome, start: Index, all: Report)
    requires Completes(index, Report([], outcome), start, all)
    ensures AllReportable(all.leaves) && index == Indexed(start, all.leaves) && outcome == all.outcome
  {
  }

  /** The last leaf, in document order, with a given pair. */
  function LastWith(leaves: seq<LeafCall>, tag: int, num: int): (r: Option<LeafCall>)
    ensures r == None <==> forall i :: 0 <= i < |leaves| ==> !(leaves[i].tag == tag && leaves[i].num == num)
    ensures r.Some? ==> exists i ::
              && 0 <= i < |leaves| && leaves[i] == r.value && leaves[i].tag == tag && leaves[i].num == num
              && forall j :: i < j < |leaves| ==> !(leaves[j].tag == tag && leaves[j].num == num)
  {
    if leaves == [] then None
    else
      var last := leaves[|leaves| - 1];
      if last.tag == tag && last.num == num then Some(last) else LastWith(leaves[..|leaves| - 1], tag, num)
  }

  /** An index built from leaves holds, under a pair's key, the last leaf with that pair. */
  lemma {:induction false} IndexedHoldsLast(leaves: seq<LeafCall>, tag: int, num: int)
    requires AllReportable(leaves) && 0 <= tag < 0x1_0000 && 0 <= num < 0x100
    ensures var key := HashOf(tag, num);
            match LastWith(leaves, tag, num)
            case None => key !in Indexed(map[], leaves)
            case Some(leaf) =>
              && Reportable(leaf) && key in Indexed(map[], leaves)
              && Indexed(map[], leaves)[key] == InfoOf(leaf)
  {
    if leaves == [] {
    } else {
      IndexedHoldsLast(leaves[..|leaves| - 1], tag, num);
      var last := leaves[|leaves| - 1];
      assert Reportable(last);
      assert HashOf(last.tag, last.num) == last.tag * 0x1_0000 + last.num;
      assert HashOf(tag, num) == tag * 0x1_0000 + num;
    }
  }

  /** The answer of `getBank`: the data pointer and the element count it writes through `len`. */
  function Lookup(index: Index, tag: Word, num: Byte): (Option<nat>, int) {
    var key := HashOf(tag, num);
    if key !in index then (None, 0) else (Some(index[key].data), ToInt32(index[key].length))
  }

  /** The answer a search through the leaves gives: the last one with the pair, else null and 0. */
  function Search(leaves: seq<LeafCall>, tag: int, num: int): (Option<nat>, int) {
    match LastWith(leaves, tag, num)
    case None => (None, 0)
    case Some(leaf) => (Some(leaf.data), leaf.count)
  }

  /**
   For any 32-bit tag, looking a pair up in an index built from leaves finds the last leaf, in
   document order, with that num and with the low half of that tag.
   */
  lemma LookupFindsLast(leaves: seq<LeafCall>, tag: Word, num: Byte)
    requires AllReportable(leaves)
    ensures Lookup(Indexed(map[], leaves), tag, num) == Search(leaves, tag % 0x1_0000, num)
  {
    hide Indexed;
    var low := tag % 0x1_0000;
    assert HashOf(tag, num) == HashOf(low, num);
    IndexedHoldsLast(leaves, low, num);
    if LastWith(leaves, low, num).Some? {
      var leaf := LastWith(leaves, low, num).value;
      assert ToInt32(ToUInt32(leaf.count)) == leaf.count;
    }
  }

  /**
   The index agrees with a search of the leaves exactly for 16-bit tags, and for wider tags whose
   low half names no leaf: a wider tag is otherwise answered with the leaf of its low half.
   */
  lemma LookupAgreesWithSearch(leaves: seq<LeafCall>, tag: Word, num: Byte)
    requires AllReportable(leaves)
    ensures Lookup(Indexed(map[], leaves), tag, num) == Search(leaves, tag, num)
       <==> tag < 0x1_0000 || LastWith(leaves, tag % 0x1_0000, num) == None
  {
    LookupFindsLast(leaves, tag, num);
    forall i | 0 <= i < |leaves|
      ensures leaves[i].tag < 0x1_0000
    {
      assert Reportable(leaves[i]);
    }
  }

  /**
   The whole path for an event: indexing a buffer that starts with the image of a well-formed bank
   and asking for a 16-bit tag gives the data and element count of the tree's last leaf, in document
   order, with that pair, and null and 0 exactly when the tree has no such leaf.
   */
  lemma EventLookup(buf: seq<Word>, event: Tree, tag: Word, num: Byte)
    requires WellFormed(event, Bank) && Holds(buf, 0, Image(event, Bank)) && tag < 0x1_0000
    ensures AllReportable(Walk(buf, 0, 0xe, 0).leaves) && Walk(buf, 0, 0xe, 0).outcome == Returned
    ensures Lookup(Indexed(map[], Walk(buf, 0, 0xe, 0).leaves), tag, num)
         == Search(LeavesOf(event, Bank, 0, 0), tag, num)
    ensures Lookup(Indexed(map[], Walk(buf, 0, 0xe, 0).leaves), tag, num).0 == None
       <==> forall i :: 0 <= i < |LeavesOf(event, Bank, 0, 0)| ==>
              !(LeavesOf(event, Bank, 0, 0)[i].tag == tag && LeavesOf(event, Bank, 0, 0)[i].num == num)
  {
    hide Walk, Indexed, LeavesOf;
    WalkReportsLeaves(buf, 0, event, 0xe, 0);
    WalkIsReportable(buf, 0, 0xe, 0);
    LookupFindsLast(LeavesOf(event, Bank, 0, 0), tag, num);
  }

  const ONE_LEAF := Leaf(1, 1, 0, 0, [7])

  /** An event with one leaf, of tag 1: asked for tag 0x1_0001, the index answers with that leaf. */
  lemma WideTagExample()
    ensures WellFormed(ONE_LEAF, Bank) && AllReportable(Walk(Image(ONE_LEAF, Bank), 0, 0xe, 0).leaves)
    ensures Lookup(Indexed(map[], Walk(Image(ONE_LEAF, Bank), 0, 0xe, 0).leaves), 0x1_0001, 0) == (Some(2), 1)
    ensures Search(LeavesOf(ONE_LEAF, Bank, 0, 0), 0x1_0001, 0) == (None, 0)
  {
    hide Walk, Indexed, Image, HeaderImage;
    var buf := Image(ONE_LEAF, Bank);
    HoldsWhole(buf);
    EventLookup(buf, ONE_LEAF, 1, 0);
    WalkReportsLeaves(buf, 0, ONE_LEAF, 0xe, 0);
    var leaves := [LeafCall(1, 0, 1, 0, 2, 1)];
    assert LeavesOf(ONE_LEAF, Bank, 0, 0) == leaves;
    LookupFindsLast(leaves, 0x1_0001, 0);
    assert LastWith(leaves[..0], 0x1_0001, 0) == None;
  }

  class EvioBankIndex {
    var evioIndex: Index

    constructor ()
      ensures evioIndex == map[]
    {
      evioIndex := map[];
    }

    method LeafHandler(contentType: int, tag: int, num: int, depth: int, dataLength: int, data: nat)
      requires Reportable(LeafCall(tag, num, contentType, depth, data, dataLength))
      modifies this
      ensures evioIndex == Indexed(old(evioIndex), [LeafCall(tag, num, contentType, depth, data, dataLength)])
    {
      var leaf := LeafCall(tag, num, contentType, depth, data, dataLength);
      assert Indexed(evioIndex, []) == evioIndex;
      assert [leaf][..0] == [];
      evioIndex := evioIndex[HashOf(tag, num) := InfoOf(leaf)];
    }

    method InitBankIndex(buf: seq<Word>) returns (outcome: Outcome)
      modifies this
      ensures AllReportable(Walk(buf, 0, 0xe, 0).leaves)
      ensures evioIndex == Indexed(map[], Walk(buf, 0, 0xe, 0).leaves)
      ensures outcome == Walk(buf, 0, 0xe, 0).outcome
    {
      evioIndex := map[];
      outcome := ParseBank(buf, 0, 0xe, 0);
    }

    method ParseBank(buf: seq<Word>, at: nat, bankType: int, depth: int) returns (outcome: Outcome)
      modifies this
      ensures AllReportable(Walk(buf, at, bankType, depth).leaves)
      ensures evioIndex == Indexed(old(evioIndex), Walk(buf, at, bankType, depth).leaves)
      ensures outcome == Walk(buf, at, bankType, depth).outcome
      decreases if at < |buf| then |buf| - at else 0
    {
      hide ReadHeader, ElementCount, Walk, WalkChildren, Indexed;
      WalkIsReportable(buf, at, bankType, depth);
      WalkRefuses(evioIndex, buf, at, bankType, depth);
      var e := EncodingOf(bankType);
      if e == None {
        return IllegalBankType;
      }
      var dataOffset := HeaderWords(e.value);
      if at + dataOffset > |buf| {
        return OutOfBuffer;
      }
      WalkUnfolds(buf, at, e.value, bankType, depth);
      var h := ReadHeader(buf, at, e.value);
      var words := BankLen(h, e.value);
      match ContentOf(h.contentType)
      case Illegal =>
        return IllegalContentType;
      case Container =>
        outcome := ParseChildren(buf, at + dataOffset, words, h.contentType, depth + 1, at);
      case _ =>
        HeaderIsReportable(buf, at, e.value);
        CountIsInt(h.contentType, words, h.padding);
        LeafHandler(h.contentType, h.tag, h.num, depth, ElementCount(h.contentType, words, h.padding), at + dataOffset);
        return Returned;
    }

    /** The loop of `parseBank` over a container's payload. */
    method ParseChildren(buf: seq<Word>, data: nat, bankLen: int, contentType: int, depth: int, ghost at: nat)
      returns (outcome: Outcome)
      requires at < data <= |buf|
      modifies this
      ensures AllReportable(WalkChildren(buf, data, 0, bankLen, contentType, depth).0.leaves)
      ensures evioIndex == Indexed(old(evioIndex), WalkChildren(buf, data, 0, bankLen, contentType, depth).0.leaves)
      ensures outcome == WalkChildren(buf, data, 0, bankLen, contentType, depth).0.outcome
      decreases |buf| - at, 0
    {
      hide Walk, WalkChildren, Indexed, Advance, AllReportable, Completes;
      var p: nat := 0;
      ghost var all := WalkChildren(buf, data, 0, bankLen, contentType, depth).0;
      LoopStarts(evioIndex, buf, data, bankLen, contentType, depth);
      while p < bankLen
        invariant Completes(evioIndex, WalkChildren(buf, data, p, bankLen, contentType, depth).0, old(evioIndex), all)
        decreases if data + p < |buf| then |buf| - data - p else 0
      {
        ChildStep(evioIndex, buf, data, p, bankLen, contentType, depth, old(evioIndex), all);
        outcome := ParseBank(buf, data + p, contentType, depth);
        if outcome != Returned {
          Completed(evioIndex, outcome, old(evioIndex), all);
          return;
        }
        var next := Advance(p, buf[data + p], contentType);
        if next <= p {
          outcome := if next == p then NeverReturns else TurnsBack;
          Completed(evioIndex, outcome, old(evioIndex), all);
          return;
        }
        p := next;
      }
      LoopEnds(buf, data, p, bankLen, contentType, depth);
      Completed(evioIndex, Returned, old(evioIndex), all);
      return Returned;
    }

    method GetBank(tag: Word, num: Byte) returns (data: Option<nat>, len: int)
      ensures (data, len) == Lookup(evioIndex, tag, num)
    {
      var key := HashOf(tag, num);
      if key !in evioIndex {
        return None, 0;
      }
      var info := evioIndex[key];
      return Some(info.data), ToInt32(info.length);
    }
  }
}
