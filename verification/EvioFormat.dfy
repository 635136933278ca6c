/**
 The converse of the walk's round trip: which buffers are images of trees. A buffer is tight at a
 position when every bank lies in the buffer and every container's children end exactly at its end.
 */
module EvioFormat {
  import opened MachineInts
  import opened Slices
  import opened EvioBanks

  predicate Tight(buf: seq<Word>, at: nat, e: Encoding)
    decreases if at < |buf| then |buf| - at else 0, 0
  {
    && at + HeaderWords(e) <= |buf|
    && var h := ReadHeader(buf, at, e);
       var words := h.length - HeaderWords(e);
       && 0 <= words <= |buf| - at - HeaderWords(e)
       && !ContentOf(h.contentType).Illegal?
       && (ContentOf(h.contentType).Container? ==>
             TightChildren(buf, at + HeaderWords(e), at + HeaderWords(e) + words, ChildEncoding(h.contentType)))
  }

  /** Banks fill the words from `at` to `end`. */
  predicate TightChildren(buf: seq<Word>, at: nat, end: nat, e: Encoding)
    decreases if at < |buf| then |buf| - at else 0, 1
  {
    at == end
    || (at < end <= |buf| && Tight(buf, at, e)
        && at + ReadHeader(buf, at, e).length <= end
        && TightChildren(buf, at + ReadHeader(buf, at, e).length, end, e))
  }

  /** The tree a tight buffer is the image of. */
  function Rebuild(buf: seq<Word>, at: nat, e: Encoding): Tree
    requires Tight(buf, at, e)
    decreases if at < |buf| then |buf| - at else 0, 0
  {
    var h := ReadHeader(buf, at, e);
    var data := at + HeaderWords(e);
    if ContentOf(h.contentType).Container? then
      Node(h.tag, h.contentType, h.num, h.padding,
           RebuildChildren(buf, data, at + h.length, ChildEncoding(h.contentType)))
    else
      Leaf(h.tag, h.contentType, h.num, h.padding, buf[data..at + h.length])
  }

  function RebuildChildren(buf: seq<Word>, at: nat, end: nat, e: Encoding): seq<Tree>
    requires TightChildren(buf, at, end, e)
    decreases if at < |buf| then |buf| - at else 0, 1
  {
    if at == end then []
    else [Rebuild(buf, at, e)] + RebuildChildren(buf, at + ReadHeader(buf, at, e).length, end, e)
  }

  /** The words of a header are made of the fields read from it, and those fit. */
  lemma BankRebuilds(w0: Word, w1: Word)
    requires BankHeader(w0, w1).length >= 2
    ensures var h := BankHeader(w0, w1);
            && w0 == h.length - 1 && w1 == h.tag * 0x1_0000 + h.padding * 0x4000 + h.contentType * 0x100 + h.num
            && 0 <= h.tag < 0x1_0000 && 0 <= h.padding < 4 && 0 <= h.contentType < 0x40 && 0 <= h.num < 0x100
  {
    assert w1 / 0x4000 == (w1 / 0x100) / 0x40;
    assert w1 / 0x1_0000 == (w1 / 0x4000) / 4;
  }

  lemma SegmentRebuilds(w: Word)
    ensures var h := SegmentHeader(w);
            && w == h.tag * 0x100_0000 + h.padding * 0x40_0000 + h.contentType * 0x1_0000 + (h.length - 1)
            && 0 <= h.tag < 0x100 && 0 <= h.padding < 4 && 0 <= h.contentType < 0x40 && 0 < h.length <= 0x1_0000
  {
    assert w / 0x40_0000 == (w / 0x1_0000) / 0x40;
    assert w / 0x100_0000 == (w / 0x40_0000) / 4;
  }

  lemma TagSegmentRebuilds(w: Word)
    ensures var h := TagSegmentHeader(w);
            && w == h.tag * 0x10_0000 + h.contentType * 0x1_0000 + (h.length - 1)
            && 0 <= h.tag < 0x1000 && 0 <= h.contentType < 0x10 && 0 < h.length <= 0x1_0000
  {
    assert w / 0x10_0000 == (w / 0x1_0000) / 0x10;
  }

  /** A tree whose fields are those read from a header fits, and its header image is those words. */
  lemma HeaderRebuilds(buf: seq<Word>, at: nat, e: Encoding, t: Tree)
    requires at + HeaderWords(e) <= |buf|
    requires var h := ReadHeader(buf, at, e);
             && t.tag == h.tag && t.contentType == h.contentType && t.num == h.num && t.padding == h.padding
             && TreeWords(t, e) == h.length
    ensures Fits(t, e) && Holds(buf, at, HeaderImage(t, e))
  {
    hide PayloadWords, BankHeader, SegmentHeader, TagSegmentHeader, ToInt32;
    match e
    case Bank =>
      BankRebuilds(buf[at], buf[at + 1]);
      BankLengthIsInt(buf[at], buf[at + 1]);
      assert buf[at..at + 2] == [buf[at], buf[at + 1]];
    case Segment =>
      SegmentRebuilds(buf[at]);
      SegmentNums(buf[at]);
    case TagSegment =>
      TagSegmentRebuilds(buf[at]);
      SegmentNums(buf[at]);
  }

  lemma BankLengthIsInt(w0: Word, w1: Word)
    ensures BankHeader(w0, w1).length <= INT_MAX
  {
  }

  lemma SegmentNums(w: Word)
    ensures SegmentHeader(w).num == 0 && TagSegmentHeader(w).num == 0 && TagSegmentHeader(w).padding == 0
  {
  }

  /** A tight buffer holds the image of the well-formed tree rebuilt from it. */
  lemma {:induction false} TightIsImage(buf: seq<Word>, at: nat, e: Encoding)
    requires Tight(buf, at, e)
    ensures WellFormed(Rebuild(buf, at, e), e)
    ensures Holds(buf, at, Image(Rebuild(buf, at, e), e))
    ensures TreeWords(Rebuild(buf, at, e), e) == ReadHeader(buf, at, e).length
    decreases if at < |buf| then |buf| - at else 0, 0
  {
    hide ReadHeader, HeaderImage, Fits, Holds;
    var h := ReadHeader(buf, at, e);
    var t := Rebuild(buf, at, e);
    var data := at + HeaderWords(e);
    if ContentOf(h.contentType).Container? {
      TightChildrenAreImages(buf, data, at + h.length, ChildEncoding(h.contentType));
    } else {
      HoldsSlice(buf, data, at + h.length);
    }
    HeaderRebuilds(buf, at, e, t);
    HoldsJoin(buf, at, HeaderImage(t, e), Body(t));
  }

  lemma {:induction false} TightChildrenAreImages(buf: seq<Word>, at: nat, end: nat, e: Encoding)
    requires TightChildren(buf, at, end, e) && end <= |buf|
    ensures AllWellFormed(RebuildChildren(buf, at, end, e), e)
    ensures Holds(buf, at, ForestImage(RebuildChildren(buf, at, end, e), e))
    ensures ForestWords(RebuildChildren(buf, at, end, e), e) == end - at
    decreases if at < |buf| then |buf| - at else 0, 1
  {
    hide ReadHeader, Tight, Rebuild, WellFormed, Image, Holds, TreeWords;
    if at == end {
      HoldsSlice(buf, at, at);
    } else {
      TightMovesOn(buf, at, e);
      var next := at + ReadHeader(buf, at, e).length;
      TightIsImage(buf, at, e);
      TightChildrenAreImages(buf, next, end, e);
      var ts := RebuildChildren(buf, at, end, e);
      assert ts[0] == Rebuild(buf, at, e) && ts[1..] == RebuildChildren(buf, next, end, e);
      HoldsJoin(buf, at, Image(ts[0], e), ForestImage(ts[1..], e));
    }
  }

  lemma TightMovesOn(buf: seq<Word>, at: nat, e: Encoding)
    requires Tight(buf, at, e)
    ensures at + HeaderWords(e) <= |buf| && ReadHeader(buf, at, e).length >= 1
  {
    hide ReadHeader;
  }

  /** The image of a well-formed tree is tight, and the tree is the one rebuilt from it. */
  lemma {:induction false} ImageIsTight(buf: seq<Word>, at: nat, t: Tree, e: Encoding)
    requires WellFormed(t, e) && Holds(buf, at, Image(t, e))
    ensures Tight(buf, at, e) && Rebuild(buf, at, e) == t
    decreases t, 0
  {
    hide ReadHeader, HeaderImage, Image, ForestImage, Fits;
    ImageSplit(buf, at, t, e);
    var data := at + HeaderWords(e);
    if t.Node? {
      ForestIsTight(buf, data, data + PayloadWords(t), t.children, ChildEncoding(t.contentType));
    }
  }

  lemma {:induction false} ForestIsTight(buf: seq<Word>, at: nat, end: nat, ts: seq<Tree>, e: Encoding)
    requires AllWellFormed(ts, e) && Holds(buf, at, ForestImage(ts, e)) && end == at + ForestWords(ts, e)
    ensures TightChildren(buf, at, end, e) && RebuildChildren(buf, at, end, e) == ts
    decreases ts, 1
  {
    hide ReadHeader, Tight, Rebuild, WellFormed, Image, Holds;
    if ts == [] {
    } else {
      FirstTree(buf, at, ts, e);
      ImageIsTight(buf, at, ts[0], e);
      ForestIsTight(buf, at + TreeWords(ts[0], e), end, ts[1..], e);
      assert ts == [ts[0]] + ts[1..];
    }
  }

  lemma FirstTree(buf: seq<Word>, at: nat, ts: seq<Tree>, e: Encoding)
    requires ts != [] && AllWellFormed(ts, e) && Holds(buf, at, ForestImage(ts, e))
    ensures WellFormed(ts[0], e) && Holds(buf, at, Image(ts[0], e))
    ensures Holds(buf, at + TreeWords(ts[0], e), ForestImage(ts[1..], e))
    ensures at + HeaderWords(e) <= |buf| && ReadHeader(buf, at, e).length == TreeWords(ts[0], e) >= 1
    ensures at + ForestWords(ts, e) <= |buf|
  {
    hide ReadHeader, HeaderImage, Image, TreeWords, WellFormed, Holds;
    HoldsFits(buf, at, ForestImage(ts, e));
    HoldsSplit(buf, at, Image(ts[0], e), ForestImage(ts[1..], e));
    HoldsFits(buf, at, Image(ts[0], e));
    ImageSplit(buf, at, ts[0], e);
  }

  /**
   The format, exactly: a buffer holds at a position the image of some well-formed tree if and only
   if it is tight there; and no two trees share an image.
   */
  lemma TightIffImage(buf: seq<Word>, at: nat, e: Encoding)
    ensures Tight(buf, at, e) <==> exists t :: WellFormed(t, e) && Holds(buf, at, Image(t, e))
    ensures forall t, u :: WellFormed(t, e) && WellFormed(u, e)
                    && Holds(buf, at, Image(t, e)) && Holds(buf, at, Image(u, e))
              ==> t == u
  {
    hide *;
    if Tight(buf, at, e) {
      TightIsImage(buf, at, e);
    }
    forall t | WellFormed(t, e) && Holds(buf, at, Image(t, e))
      ensures Tight(buf, at, e) && Rebuild(buf, at, e) == t
    {
      ImageIsTight(buf, at, t, e);
    }
  }

  // ---- What the walk does on such buffers ---------------------------------------------------------

  /**
   The walk of the bank at `at` goes exactly along the banks: no header's length overflows, every leaf's
   payload lies in the buffer, and the loop over every container stops exactly at its payload's end.
   */
  predicate Exact(buf: seq<Word>, at: nat, bankType: int, depth: int)
    decreases if at < |buf| then |buf| - at else 0, 0
  {
    && EncodingOf(bankType).Some?
    && var e := EncodingOf(bankType).value;
       var data := at + HeaderWords(e);
       && data <= |buf|
       && var h := ReadHeader(buf, at, e);
          var words := BankLen(h, e);
          && words == h.length - HeaderWords(e)
          && if ContentOf(h.contentType).Container? then
               && WalkChildren(buf, data, 0, words, h.contentType, depth + 1).1 == words
               && ExactChildren(buf, data, 0, words, h.contentType, depth + 1)
             else 0 <= words <= |buf| - data
  }

  /** The same for the children that the loop over a container walks from offset `p` on. */
  predicate ExactChildren(buf: seq<Word>, data: nat, p: nat, bankLen: int, contentType: int, depth: int)
    decreases if data + p < |buf| then |buf| - data - p else 0, 1
  {
    p < bankLen ==>
      && data + p < |buf| && Exact(buf, data + p, contentType, depth)
      && (Advance(p, buf[data + p], contentType) > p ==>
            ExactChildren(buf, data, Advance(p, buf[data + p], contentType), bankLen, contentType, depth))
  }

  lemma TightFits(buf: seq<Word>, at: nat, e: Encoding)
    requires Tight(buf, at, e)
    ensures at + HeaderWords(e) <= |buf| && HeaderWords(e) <= ReadHeader(buf, at, e).length <= |buf| - at
  {
    hide ReadHeader;
  }

  /** In a tight bank the length the loop moves by is the length in the header. */
  lemma TightStride(buf: seq<Word>, at: nat, contentType: int)
    requires ContentOf(contentType).Container? && Tight(buf, at, ChildEncoding(contentType))
    ensures at < |buf| && Stride(buf[at], contentType) == ReadHeader(buf, at, ChildEncoding(contentType)).length
  {
    TightFits(buf, at, ChildEncoding(contentType));
  }

  lemma {:induction false} ExactIsTight(buf: seq<Word>, at: nat, bankType: int, depth: int)
    requires Exact(buf, at, bankType, depth) && Walk(buf, at, bankType, depth).outcome == Returned
    ensures Tight(buf, at, EncodingOf(bankType).value)
    decreases if at < |buf| then |buf| - at else 0, 0
  {
    hide ReadHeader, Walk, WalkChildren, ExactChildren, TightChildren, ElementCount;
    var e := EncodingOf(bankType).value;
    var h := ReadHeader(buf, at, e);
    WalkUnfolds(buf, at, e, bankType, depth);
    if ContentOf(h.contentType).Container? {
      ExactChildrenAreTight(buf, at + HeaderWords(e), 0, BankLen(h, e), h.contentType, depth + 1);
    }
  }

  lemma {:induction false} ExactChildrenAreTight(buf: seq<Word>, data: nat, p: nat, bankLen: int,
                                             contentType: int, depth: int)
    requires ContentOf(contentType).Container? && data + p <= |buf|
    requires ExactChildren(buf, data, p, bankLen, contentType, depth)
    requires var (r, stop) := WalkChildren(buf, data, p, bankLen, contentType, depth);
             r.outcome == Returned && stop == bankLen
    ensures p <= bankLen <= |buf| - data && TightChildren(buf, data + p, data + bankLen, ChildEncoding(contentType))
    decreases if data + p < |buf| then |buf| - data - p else 0, 1
  {
    hide ReadHeader, Walk, WalkChildren, Exact, Tight, Advance, Stride;
    if p >= bankLen {
      LoopOver(buf, data, p, bankLen, contentType, depth);
    } else {
      var e := ChildEncoding(contentType);
      WalkChildrenUnfolds(buf, data, p, bankLen, contentType, depth);
      ExactIsTight(buf, data + p, contentType, depth);
      TightFits(buf, data + p, e);
      TightStride(buf, data + p, contentType);
      var next := Advance(p, buf[data + p], contentType);
      MovesBy(p, buf[data + p], contentType);
      assert data + next == data + p + ReadHeader(buf, data + p, e).length;
      ExactChildrenAreTight(buf, data, next, bankLen, contentType, depth);
    }
  }

  lemma LoopOver(buf: seq<Word>, data: nat, p: nat, bankLen: int, contentType: int, depth: int)
    requires p >= bankLen
    ensures WalkChildren(buf, data, p, bankLen, contentType, depth) == (Report([], Returned), p)
  {
  }

  lemma MovesBy(p: nat, w: Word, contentType: int)
    ensures Advance(p, w, contentType) > p ==> Advance(p, w, contentType) == p + Stride(w, contentType)
    ensures 0 < Stride(w, contentType) <= INT_MAX - p ==> Advance(p, w, contentType) == p + Stride(w, contentType)
  {
    hide Stride;
    if p <= INT_MAX {
      LoopMovesOn(p, w, contentType);
    }
  }

  lemma {:induction false} TightIsExact(buf: seq<Word>, at: nat, bankType: int, depth: int)
    requires EncodingOf(bankType).Some? && Tight(buf, at, EncodingOf(bankType).value)
    ensures Exact(buf, at, bankType, depth) && Walk(buf, at, bankType, depth).outcome == Returned
    decreases if at < |buf| then |buf| - at else 0, 0
  {
    hide ReadHeader, Walk, WalkChildren, ExactChildren, TightChildren, ElementCount;
    var e := EncodingOf(bankType).value;
    var h := ReadHeader(buf, at, e);
    TightLength(buf, at, e);
    WalkUnfolds(buf, at, e, bankType, depth);
    if ContentOf(h.contentType).Container? {
      TightChildrenAreExact(buf, at + HeaderWords(e), 0, BankLen(h, e), h.contentType, depth + 1);
    }
  }

  lemma TightLength(buf: seq<Word>, at: nat, e: Encoding)
    requires Tight(buf, at, e)
    ensures var h := ReadHeader(buf, at, e);
            BankLen(h, e) == h.length - HeaderWords(e) >= 0
  {
  }

  lemma {:induction false} TightChildrenAreExact(buf: seq<Word>, data: nat, p: nat, bankLen: int,
                                             contentType: int, depth: int)
    requires ContentOf(contentType).Container? && p <= bankLen <= INT_MAX
    requires TightChildren(buf, data + p, data + bankLen, ChildEncoding(contentType))
    ensures ExactChildren(buf, data, p, bankLen, contentType, depth)
    ensures var (r, stop) := WalkChildren(buf, data, p, bankLen, contentType, depth);
            r.outcome == Returned && stop == bankLen
    decreases if data + p < |buf| then |buf| - data - p else 0, 1
  {
    hide ReadHeader, Walk, WalkChildren, Exact, Tight, Advance, Stride;
    if p == bankLen {
      LoopOver(buf, data, p, bankLen, contentType, depth);
    } else {
      var e := ChildEncoding(contentType);
      TightIsExact(buf, data + p, contentType, depth);
      TightFits(buf, data + p, e);
      TightStride(buf, data + p, contentType);
      var next := Advance(p, buf[data + p], contentType);
      MovesBy(p, buf[data + p], contentType);
      assert data + next == data + p + ReadHeader(buf, data + p, e).length;
      TightChildrenAreExact(buf, data, next, bankLen, contentType, depth);
      WalkChildrenUnfolds(buf, data, p, bankLen, contentType, depth);
    }
  }

  /**
   On any buffer: the walk returns and goes exactly along the banks if and only if what lies at its start
   is the image of a well-formed tree. On any other buffer it throws, never returns, or leaves the banks.
   */
  lemma ExactWalkIffImage(buf: seq<Word>, at: nat, bankType: int, depth: int)
    requires EncodingOf(bankType).Some?
    ensures var e := EncodingOf(bankType).value;
            Walk(buf, at, bankType, depth).outcome == Returned && Exact(buf, at, bankType, depth)
            <==> exists t :: WellFormed(t, e) && Holds(buf, at, Image(t, e))
  {
    hide *;
    var e := EncodingOf(bankType).value;
    TightIffImage(buf, at, e);
    if Tight(buf, at, e) {
      TightIsExact(buf, at, bankType, depth);
    }
    if Walk(buf, at, bankType, depth).outcome == Returned && Exact(buf, at, bankType, depth) {
      ExactIsTight(buf, at, bankType, depth);
    }
  }
}
