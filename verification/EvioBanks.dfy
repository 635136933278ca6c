/**
 The EVIO bank walker: a recursive parser over three container encodings that records, for every
 leaf of an event, where its data starts and how many elements it has, under the key (tag, num).
 */
module EvioBanks {
  import opened MachineInts
  import opened Slices

  // ---- Headers ------------------------------------------------------------------------------

  datatype Encoding = Bank | Segment | TagSegment

  /** The three header encodings, by the type code a container announces for its children. */
  function EncodingOf(bankType: int): (e: Option<Encoding>)
  {
    if bankType == 0xe || bankType == 0x10 then Some(Bank)
    else if bankType == 0xd || bankType == 0x20 then Some(Segment)
    else if bankType == 0xc || bankType == 0x40 then Some(TagSegment)
    else None
  }

  datatype Content = FourByte | OneByte | TwoByte | EightByte | Container | Illegal

  function ContentOf(contentType: int): (c: Content) {
    if 0x0 <= contentType <= 0x2 || contentType == 0xb || contentType == 0xf then FourByte
    else if contentType == 0x3 || contentType == 0x6 || contentType == 0x7 then OneByte
    else if contentType == 0x4 || contentType == 0x5 then TwoByte
    else if 0x8 <= contentType <= 0xa then EightByte
    else if EncodingOf(contentType).Some? then Container
    else Illegal
  }

  datatype Header = Header(length: int, tag: int, contentType: int, num: int, padding: int)

  function HeaderWords(e: Encoding): nat {
    if e.Bank? then 2 else 1
  }

  function BankHeader(w0: Word, w1: Word): Header {
    Header(ToInt32(w0 as int + 1), w1 / 0x1_0000, (w1 / 0x100) % 0x40, w1 % 0x100, (w1 / 0x4000) % 4)
  }

  function SegmentHeader(w: Word): Header {
    Header(w % 0x1_0000 + 1, w / 0x100_0000, (w / 0x1_0000) % 0x40, 0, (w / 0x40_0000) % 4)
  }

  function TagSegmentHeader(w: Word): Header {
    Header(w % 0x1_0000 + 1, w / 0x10_0000, (w / 0x1_0000) % 0x10, 0, 0)
  }

  function ReadHeader(buf: seq<Word>, at: nat, e: Encoding): Header
    requires at + HeaderWords(e) <= |buf|
  {
    match e
    case Bank => BankHeader(buf[at], buf[at + 1])
    case Segment => SegmentHeader(buf[at])
    case TagSegment => TagSegmentHeader(buf[at])
  }

  /** `length - dataOffset`, computed in `int`. */
  function BankLen(h: Header, e: Encoding): int {
    ToInt32(h.length - HeaderWords(e))
  }

  /** Number of elements a leaf of `words` payload words is reported to hold. */
  function ElementCount(contentType: int, words: int, padding: int): int {
    match ContentOf(contentType)
    case OneByte => ToInt32(words * 4 - padding)
    case TwoByte => ToInt32(words * 2 - padding / 2)
    case EightByte => TruncDiv(words, 2)
    case _ => words
  }

  /** Bytes of one element of a leaf. */
  function ElementBytes(contentType: int): nat {
    match ContentOf(contentType)
    case OneByte => 1
    case TwoByte => 2
    case EightByte => 8
    case _ => 4
  }

  /**
   The count is corrected for padding, as long as the payload's byte count fits an `int`: what elements
   and padding bytes miss of the payload, or exceed it by, for every kind of leaf. They make it up
   exactly for one-byte elements, for two-byte elements with an even padding, and for wider elements
   without padding that leave no word over.
   */
  lemma ElementCountFillsPayload(contentType: int, words: nat, padding: int)
    requires 0 <= padding < 4 && 4 * words <= INT_MAX
    ensures var count := ElementCount(contentType, words, padding);
            var made := ElementBytes(contentType) * count + padding;
            match ContentOf(contentType)
            case FourByte => made == 4 * words + padding
            case OneByte => made == 4 * words && (count < 0 <==> padding > 4 * words)
            case TwoByte => made == 4 * words + padding % 2 && (count < 0 <==> padding >= 2 && words == 0)
            case EightByte => made == 4 * (words - words % 2) + padding
            case _ => true
    ensures !ContentOf(contentType).Container? && !ContentOf(contentType).Illegal? ==>
              var exact := match ContentOf(contentType)
                           case OneByte => true
                           case TwoByte => padding % 2 == 0
                           case EightByte => padding == 0 && words % 2 == 0
                           case _ => padding == 0;
              ElementBytes(contentType) * ElementCount(contentType, words, padding) + padding == 4 * words <==> exact
  {
    hide ContentOf;
  }

  // ---- The walk -----------------------------------------------------------------------------

  /** One call of the leaf handler; `data` is the index of the payload's first word. */
  datatype LeafCall = LeafCall(tag: int, num: int, contentType: int, depth: int, data: nat, count: int)

  /**
   How a walk ends. `OutOfBuffer`: a header lies past the buffer. `NeverReturns`: a container loop
   walks the same child over and over. `TurnsBack`: its cursor leaves the range of `int`, which puts it
   in front of the child just walked.
   */
  datatype Outcome = Returned | IllegalBankType | IllegalContentType | OutOfBuffer | NeverReturns | TurnsBack

  datatype Report = Report(leaves: seq<LeafCall>, outcome: Outcome)

  /** Words by which a container's loop moves past the child whose first word is `w`, in 32 bits. */
  function Stride(w: Word, contentType: int): (words: Word)
    ensures words == 0 <==> (contentType == 0xe || contentType == 0x10) && w == 0xffff_ffff
  {
    if contentType == 0xe || contentType == 0x10 then ToUInt32(w as int + 1) else w % 0x1_0000 + 1
  }

  /** The loop's cursor after that child: the unsigned sum, put back into an `int`. */
  function Advance(p: int, w: Word, contentType: int): (next: int)
    ensures -0x8000_0000 <= next <= INT_MAX
  {
    ToInt32(p + Stride(w, contentType))
  }

  /**
   The loop moves on, by exactly the stride, if and only if the stride is positive and does not carry the
   cursor past the largest `int`. It stands still exactly on a bank that announces the greatest length.
   */
  lemma LoopMovesOn(p: nat, w: Word, contentType: int)
    requires p <= INT_MAX
    ensures Advance(p, w, contentType) > p <==> 0 < Stride(w, contentType) <= INT_MAX - p
    ensures Advance(p, w, contentType) > p ==> Advance(p, w, contentType) == p + Stride(w, contentType)
    ensures Advance(p, w, contentType) == p <==> (contentType == 0xe || contentType == 0x10) && w == 0xffff_ffff
  {
    hide Stride, ToInt32;
    var sum, next := p + Stride(w, contentType), Advance(p, w, contentType);
    assert (next - sum) % TWO32 == 0;
    assert -2 * TWO32 < next - sum < TWO32;
  }

  /** The cursor after `n` rounds of the loop, none of them ending the walk. */
  function CursorAfter(buf: seq<Word>, data: nat, p: int, contentType: int, n: nat): Option<int>
    decreases n
  {
    if n == 0 then Some(p)
    else if !(0 <= data + p < |buf|) then None
    else CursorAfter(buf, data, Advance(p, buf[data + p], contentType), contentType, n - 1)
  }

  /** A cursor that stands still once does so in every round: the loop never ends. */
  lemma {:induction false} StandsStill(buf: seq<Word>, data: nat, p: nat, contentType: int, n: nat)
    requires data + p < |buf| && Advance(p, buf[data + p], contentType) == p
    ensures CursorAfter(buf, data, p, contentType, n) == Some(p)
  {
    hide Advance;
    if n == 0 {
    } else {
      StandsStill(buf, data, p, contentType, n - 1);
    }
  }

  /** Everything parseBank reports for the bank whose header starts at `at`. */
  function Walk(buf: seq<Word>, at: nat, bankType: int, depth: int): (r: Report)
    ensures r.outcome == Returned ==> at < |buf|
    decreases if at < |buf| then |buf| - at else 0, 0
  {
    var e := EncodingOf(bankType);
    if e == None then Report([], IllegalBankType)
    else if at + HeaderWords(e.value) > |buf| then Report([], OutOfBuffer)
    else
      var h := ReadHeader(buf, at, e.value);
      var words := BankLen(h, e.value);
      var data := at + HeaderWords(e.value);
      match ContentOf(h.contentType)
      case Illegal => Report([], IllegalContentType)
      case Container => WalkChildren(buf, data, 0, words, h.contentType, depth + 1).0
      case _ =>
        Report([LeafCall(h.tag, h.num, h.contentType, depth, data,
                         ElementCount(h.contentType, words, h.padding))], Returned)
  }

  /** The loop over a container's payload from offset `p`; also the offset at which it stopped. */
  function WalkChildren(buf: seq<Word>, data: nat, p: nat, bankLen: int, contentType: int, depth: int)
    : (r: (Report, int))
    decreases if data + p < |buf| then |buf| - data - p else 0, 1
  {
    if p >= bankLen then (Report([], Returned), p)
    else
      var first := Walk(buf, data + p, contentType, depth);
      if first.outcome != Returned then (first, p)
      else
        var next := Advance(p, buf[data + p], contentType);
        if next <= p then (Report(first.leaves, if next == p then NeverReturns else TurnsBack), p)
        else
          var (rest, stop) := WalkChildren(buf, data, next, bankLen, contentType, depth);
          (Report(first.leaves + rest.leaves, rest.outcome), stop)
  }

  // ---- The format: trees of banks and their serialised form ----------------------------------

  datatype Tree =
    | Leaf(tag: int, contentType: int, num: int, padding: int, payload: seq<Word>)
    | Node(tag: int, contentType: int, num: int, padding: int, children: seq<Tree>)

  /** The encoding of a container's children; meaningful for container content types only. */
  function ChildEncoding(contentType: int): Encoding {
    match EncodingOf(contentType)
    case Some(e) => e
    case None => Bank
  }

  function PayloadWords(t: Tree): nat
    decreases t, 0
  {
    match t
    case Leaf(_, _, _, _, payload) => |payload|
    case Node(_, contentType, _, _, children) => ForestWords(children, ChildEncoding(contentType))
  }

  function TreeWords(t: Tree, e: Encoding): (words: nat)
    ensures words >= HeaderWords(e)
    decreases t, 1
  {
    HeaderWords(e) + PayloadWords(t)
  }

  function ForestWords(ts: seq<Tree>, e: Encoding): nat
    decreases ts, 2
  {
    if ts == [] then 0 else TreeWords(ts[0], e) + ForestWords(ts[1..], e)
  }

  /** The header fields fit their bit widths, and the length fits the length field and an `int`. */
  predicate Fits(t: Tree, e: Encoding) {
    match e
    case Bank =>
      0 <= t.tag < 0x1_0000 && 0 <= t.contentType < 0x40 && 0 <= t.num < 0x100 && 0 <= t.padding < 4
      && PayloadWords(t) + 2 <= INT_MAX
    case Segment =>
      0 <= t.tag < 0x100 && 0 <= t.contentType < 0x40 && t.num == 0 && 0 <= t.padding < 4
      && PayloadWords(t) < 0x1_0000
    case TagSegment =>
      0 <= t.tag < 0x1000 && 0 <= t.contentType < 0x10 && t.num == 0 && t.padding == 0
      && PayloadWords(t) < 0x1_0000
  }

  predicate WellFormed(t: Tree, e: Encoding)
    decreases t, 0
  {
    && Fits(t, e)
    && match t
       case Leaf(_, contentType, _, _, _) => !ContentOf(contentType).Container? && !ContentOf(contentType).Illegal?
       case Node(_, contentType, _, _, children) =>
         ContentOf(contentType).Container? && AllWellFormed(children, ChildEncoding(contentType))
  }

  predicate AllWellFormed(ts: seq<Tree>, e: Encoding)
    decreases ts, 1
  {
    ts == [] || (WellFormed(ts[0], e) && AllWellFormed(ts[1..], e))
  }

  function HeaderImage(t: Tree, e: Encoding): (ws: seq<Word>)
    requires Fits(t, e)
    ensures |ws| == HeaderWords(e)
  {
    match e
    case Bank => [PayloadWords(t) + 1, t.tag * 0x1_0000 + t.padding * 0x4000 + t.contentType * 0x100 + t.num]
    case Segment => [t.tag * 0x100_0000 + t.padding * 0x40_0000 + t.contentType * 0x1_0000 + PayloadWords(t)]
    case TagSegment => [t.tag * 0x10_0000 + t.contentType * 0x1_0000 + PayloadWords(t)]
  }

  function Image(t: Tree, e: Encoding): (ws: seq<Word>)
    requires WellFormed(t, e)
    ensures |ws| == TreeWords(t, e)
    decreases t, 0
  {
    HeaderImage(t, e) +
    match t
    case Leaf(_, _, _, _, payload) => payload
    case Node(_, contentType, _, _, children) => ForestImage(children, ChildEncoding(contentType))
  }

  function ForestImage(ts: seq<Tree>, e: Encoding): (ws: seq<Word>)
    requires AllWellFormed(ts, e)
    ensures |ws| == ForestWords(ts, e)
    decreases ts, 1
  {
    if ts == [] then [] else Image(ts[0], e) + ForestImage(ts[1..], e)
  }

  /** The leaves of a tree in document order, the tree's image starting at word `at`. */
  function LeavesOf(t: Tree, e: Encoding, at: nat, depth: int): seq<LeafCall>
    decreases t, 0
  {
    var data := at + HeaderWords(e);
    match t
    case Leaf(tag, contentType, num, padding, payload) =>
      [LeafCall(tag, num, contentType, depth, data, ElementCount(contentType, |payload|, padding))]
    case Node(_, contentType, _, _, children) =>
      LeavesOfForest(children, ChildEncoding(contentType), data, depth + 1)
  }

  function LeavesOfForest(ts: seq<Tree>, e: Encoding, at: nat, depth: int): seq<LeafCall>
    decreases ts, 1
  {
    if ts == [] then []
    else LeavesOf(ts[0], e, at, depth) + LeavesOfForest(ts[1..], e, at + TreeWords(ts[0], e), depth)
  }

  lemma BankFields(tag: int, padding: int, contentType: int, num: int)
    requires 0 <= padding < 4 && 0 <= contentType < 0x40 && 0 <= num < 0x100
    ensures var w := tag * 0x1_0000 + padding * 0x4000 + contentType * 0x100 + num;
            && w / 0x1_0000 == tag && (w / 0x4000) % 4 == padding
            && (w / 0x100) % 0x40 == contentType && w % 0x100 == num
  {
    var w := tag * 0x1_0000 + padding * 0x4000 + contentType * 0x100 + num;
    assert w / 0x100 == tag * 0x100 + padding * 0x40 + contentType;
    assert w / 0x4000 == tag * 4 + padding;
  }

  lemma SegmentFields(tag: int, padding: int, contentType: int, words: int)
    requires 0 <= padding < 4 && 0 <= contentType < 0x40 && 0 <= words < 0x1_0000
    ensures var w := tag * 0x100_0000 + padding * 0x40_0000 + contentType * 0x1_0000 + words;
            && w / 0x100_0000 == tag && (w / 0x40_0000) % 4 == padding
            && (w / 0x1_0000) % 0x40 == contentType && w % 0x1_0000 == words
  {
    var w := tag * 0x100_0000 + padding * 0x40_0000 + contentType * 0x1_0000 + words;
    assert w / 0x1_0000 == tag * 0x100 + padding * 0x40 + contentType;
    assert w / 0x40_0000 == tag * 4 + padding;
  }

  lemma TagSegmentFields(tag: int, contentType: int, words: int)
    requires 0 <= contentType < 0x10 && 0 <= words < 0x1_0000
    ensures var w := tag * 0x10_0000 + contentType * 0x1_0000 + words;
            w / 0x10_0000 == tag && (w / 0x1_0000) % 0x10 == contentType && w % 0x1_0000 == words
  {
    var w := tag * 0x10_0000 + contentType * 0x1_0000 + words;
    assert w / 0x1_0000 == tag * 0x10 + contentType;
  }

  lemma HeaderReadsBack(t: Tree, e: Encoding)
    requires Fits(t, e)
    ensures ReadHeader(HeaderImage(t, e), 0, e) == Header(TreeWords(t, e), t.tag, t.contentType, t.num, t.padding)
  {
    hide PayloadWords, BankHeader, SegmentHeader, TagSegmentHeader;
    var words := PayloadWords(t);
    match e
    case Bank => BankReadsBack(words, t.tag, t.padding, t.contentType, t.num);
    case Segment => SegmentReadsBack(words, t.tag, t.padding, t.contentType);
    case TagSegment => TagSegmentReadsBack(words, t.tag, t.contentType);
  }

  lemma BankReadsBack(words: nat, tag: int, padding: int, contentType: int, num: int)
    requires words + 2 <= INT_MAX && 0 <= tag < 0x1_0000 && 0 <= padding < 4
             && 0 <= contentType < 0x40 && 0 <= num < 0x100
    ensures BankHeader(words + 1, tag * 0x1_0000 + padding * 0x4000 + contentType * 0x100 + num)
         == Header(words + 2, tag, contentType, num, padding)
  {
    BankFields(tag, padding, contentType, num);
  }

  lemma SegmentReadsBack(words: nat, tag: int, padding: int, contentType: int)
    requires words < 0x1_0000 && 0 <= tag < 0x100 && 0 <= padding < 4 && 0 <= contentType < 0x40
    ensures SegmentHeader(tag * 0x100_0000 + padding * 0x40_0000 + contentType * 0x1_0000 + words)
         == Header(words + 1, tag, contentType, 0, padding)
  {
    SegmentFields(tag, padding, contentType, words);
  }

  lemma TagSegmentReadsBack(words: nat, tag: int, contentType: int)
    requires words < 0x1_0000 && 0 <= tag < 0x1000 && 0 <= contentType < 0x10
    ensures TagSegmentHeader(tag * 0x10_0000 + contentType * 0x1_0000 + words)
         == Header(words + 1, tag, contentType, 0, 0)
  {
    TagSegmentFields(tag, contentType, words);
  }

  lemma HeaderIsLocal(buf: seq<Word>, at: nat, ws: seq<Word>, e: Encoding)
    requires Holds(buf, at, ws) && |ws| == HeaderWords(e)
    ensures ReadHeader(buf, at, e) == ReadHeader(ws, 0, e)
  {
    assert buf[at] == buf[at..at + |ws|][0];
    if e.Bank? {
      assert buf[at + 1] == buf[at..at + |ws|][1];
    }
  }

  /** The image of a tree without its header. */
  function Body(t: Tree): (ws: seq<Word>)
    requires t.Node? ==> AllWellFormed(t.children, ChildEncoding(t.contentType))
    ensures |ws| == PayloadWords(t)
  {
    match t
    case Leaf(_, _, _, _, payload) => payload
    case Node(_, contentType, _, _, children) => ForestImage(children, ChildEncoding(contentType))
  }

  lemma ImageSplit(buf: seq<Word>, at: nat, t: Tree, e: Encoding)
    requires WellFormed(t, e) && Holds(buf, at, Image(t, e))
    ensures Holds(buf, at, HeaderImage(t, e)) && Holds(buf, at + HeaderWords(e), Body(t))
    ensures ReadHeader(buf, at, e) == Header(TreeWords(t, e), t.tag, t.contentType, t.num, t.padding)
  {
    hide HeaderImage, ReadHeader;
    assert Image(t, e) == HeaderImage(t, e) + Body(t);
    HoldsSplit(buf, at, HeaderImage(t, e), Body(t));
    HeaderIsLocal(buf, at, HeaderImage(t, e), e);
    HeaderReadsBack(t, e);
  }

  lemma StrideIsTreeWords(buf: seq<Word>, at: nat, t: Tree, contentType: int)
    requires ContentOf(contentType).Container?
    requires WellFormed(t, ChildEncoding(contentType)) && Holds(buf, at, Image(t, ChildEncoding(contentType)))
    ensures at < |buf| && Stride(buf[at], contentType) == TreeWords(t, ChildEncoding(contentType))
  {
    var ws := HeaderImage(t, ChildEncoding(contentType));
    ImageSplit(buf, at, t, ChildEncoding(contentType));
    assert buf[at] == buf[at..at + |ws|][0] == ws[0];
  }

  lemma WalkUnfolds(buf: seq<Word>, at: nat, e: Encoding, bankType: int, depth: int)
    requires EncodingOf(bankType) == Some(e) && at + HeaderWords(e) <= |buf|
    ensures var h := ReadHeader(buf, at, e);
            var data := at + HeaderWords(e);
            var words := BankLen(h, e);
            var leaf := LeafCall(h.tag, h.num, h.contentType, depth, data,
                                ElementCount(h.contentType, words, h.padding));
            match ContentOf(h.contentType)
            case Illegal => Walk(buf, at, bankType, depth) == Report([], IllegalContentType)
            case Container =>
              Walk(buf, at, bankType, depth) == WalkChildren(buf, data, 0, words, h.contentType, depth + 1).0
            case _ => Walk(buf, at, bankType, depth) == Report([leaf], Returned)
  {
    hide ReadHeader, ElementCount;
  }

  /**
   Walking the image of a well-formed tree, wherever it lies in the buffer, reports exactly the
   tree's leaves in document order and returns.
   */
  lemma {:induction false} WalkReportsLeaves(buf: seq<Word>, at: nat, t: Tree, bankType: int, depth: int)
    requires EncodingOf(bankType).Some?
    requires WellFormed(t, EncodingOf(bankType).value)
    requires Holds(buf, at, Image(t, EncodingOf(bankType).value))
    ensures Walk(buf, at, bankType, depth)
         == Report(LeavesOf(t, EncodingOf(bankType).value, at, depth), Returned)
    decreases t, 0
  {
    hide Image, HeaderImage, ReadHeader, ForestImage, Walk, WalkChildren, ElementCount, Holds;
    var e := EncodingOf(bankType).value;
    ImageSplit(buf, at, t, e);
    HoldsFits(buf, at, HeaderImage(t, e));
    WalkUnfolds(buf, at, e, bankType, depth);
    if t.Node? {
      WalkReportsForest(buf, at + HeaderWords(e), 0, PayloadWords(t), t.children, t.contentType, depth + 1);
    }
  }

  /** The same for the children of a container, whose loop stops exactly at the payload's end. */
  lemma {:induction false} WalkReportsForest(buf: seq<Word>, data: nat, p: nat, bankLen: nat,
                                             ts: seq<Tree>, contentType: int, depth: int)
    requires ContentOf(contentType).Container?
    requires AllWellFormed(ts, ChildEncoding(contentType))
    requires p + ForestWords(ts, ChildEncoding(contentType)) == bankLen <= INT_MAX
    requires Holds(buf, data + p, ForestImage(ts, ChildEncoding(contentType)))
    ensures WalkChildren(buf, data, p, bankLen, contentType, depth)
         == (Report(LeavesOfForest(ts, ChildEncoding(contentType), data + p, depth), Returned), bankLen)
    decreases ts, 1
  {
    hide Walk, WalkChildren, Image, ForestImage, LeavesOf, LeavesOfForest, Advance, TreeWords, Holds, WellFormed;
    if ts == [] {
      EmptyForest(buf, data, p, bankLen, contentType, depth);
    } else {
      var e := ChildEncoding(contentType);
      var next := p + TreeWords(ts[0], e);
      FirstChild(buf, data + p, ts, contentType, depth);
      assert data + p + TreeWords(ts[0], e) == data + next;
      assert p < bankLen && next <= bankLen && e == EncodingOf(contentType).value;
      LoopMovesOn(p, buf[data + p], contentType);
      WalkReportsLeaves(buf, data + p, ts[0], contentType, depth);
      WalkReportsForest(buf, data, next, bankLen, ts[1..], contentType, depth);
      WalkChildrenUnfolds(buf, data, p, bankLen, contentType, depth);
    }
  }

  lemma EmptyForest(buf: seq<Word>, data: nat, p: nat, bankLen: int, contentType: int, depth: int)
    requires p >= bankLen
    ensures WalkChildren(buf, data, p, bankLen, contentType, depth) == (Report([], Returned), p)
    ensures LeavesOfForest([], ChildEncoding(contentType), data + p, depth) == []
  {
  }

  lemma FirstChild(buf: seq<Word>, at: nat, ts: seq<Tree>, contentType: int, depth: int)
    requires ts != [] && ContentOf(contentType).Container? && AllWellFormed(ts, ChildEncoding(contentType))
    requires Holds(buf, at, ForestImage(ts, ChildEncoding(contentType)))
    ensures var e := ChildEncoding(contentType);
            var next := at + TreeWords(ts[0], e);
            && WellFormed(ts[0], e) && AllWellFormed(ts[1..], e)
            && TreeWords(ts[0], e) >= 1 && ForestWords(ts, e) == TreeWords(ts[0], e) + ForestWords(ts[1..], e)
            && Holds(buf, at, Image(ts[0], e)) && Holds(buf, next, ForestImage(ts[1..], e))
            && at < |buf| && Stride(buf[at], contentType) == TreeWords(ts[0], e)
            && LeavesOfForest(ts, e, at, depth) ==
                  LeavesOf(ts[0], e, at, depth) + LeavesOfForest(ts[1..], e, next, depth)
  {
    hide HeaderImage, LeavesOf, Stride;
    var e := ChildEncoding(contentType);
    HoldsSplit(buf, at, Image(ts[0], e), ForestImage(ts[1..], e));
    StrideIsTreeWords(buf, at, ts[0], contentType);
  }

  /** One round of a container's loop: three ways to stop, one to go on. */
  lemma WalkChildrenUnfolds(buf: seq<Word>, data: nat, p: nat, bankLen: int, contentType: int, depth: int)
    requires p < bankLen
    ensures var first := Walk(buf, data + p, contentType, depth);
            var all := WalkChildren(buf, data, p, bankLen, contentType, depth);
            if first.outcome != Returned then all == (first, p)
            else
              var next := Advance(p, buf[data + p], contentType);
              if next <= p then all == (Report(first.leaves, if next == p then NeverReturns else TurnsBack), p)
              else
                var rest := WalkChildren(buf, data, next, bankLen, contentType, depth);
                all == (Report(first.leaves + rest.0.leaves, rest.0.outcome), rest.1)
  {
    hide Walk, Advance;
  }

  /** A container whose only child announces the greatest length: the child is a leaf, reported for ever. */
  lemma LongestLengthExample()
    ensures Walk([3, 0xe00, 0xffff_ffff, 0x100], 0, 0xe, 0)
         == Report([LeafCall(0, 0, 1, 1, 4, -2)], NeverReturns)
    ensures forall n: nat :: CursorAfter([3, 0xe00, 0xffff_ffff, 0x100], 2, 0, 0xe, n) == Some(0)
  {
    hide ReadHeader, BankLen, Walk, WalkChildren, Advance, CursorAfter;
    var buf: seq<Word> := [3, 0xe00, 0xffff_ffff, 0x100];
    LongestLengthHeaders(buf);
    WalkUnfolds(buf, 2, Bank, 0xe, 1);
    LoopMovesOn(0, buf[2], 0xe);
    WalkChildrenUnfolds(buf, 2, 0, 2, 0xe, 1);
    WalkUnfolds(buf, 0, Bank, 0xe, 0);
    forall n: nat
      ensures CursorAfter(buf, 2, 0, 0xe, n) == Some(0)
    {
      StandsStill(buf, 2, 0, 0xe, n);
    }
  }

  lemma LongestLengthHeaders(buf: seq<Word>)
    requires buf == [3, 0xe00, 0xffff_ffff, 0x100]
    ensures var outer, inner := Header(4, 0, 0xe, 0, 0), Header(0, 0, 1, 0, 0);
            && ReadHeader(buf, 0, Bank) == outer && BankLen(outer, Bank) == 2
            && ReadHeader(buf, 2, Bank) == inner && BankLen(inner, Bank) == -2
  {
  }

  // ---- The codes in numbers ---------------------------------------------------------------------

  /**
   What a bank with the given numbers in its header is walked as, by the number of its content type: a
   leaf with so many elements, a container whose children are walked under that number, or an error.
   */
  ghost predicate WalkedAs(r: Report, buf: seq<Word>, contentType: int, tag: int, num: int, depth: int,
                           data: nat, words: int, padding: int)
  {
    && (contentType in {0x0, 0x1, 0x2, 0xb, 0xf} ==>
          r == Report([LeafCall(tag, num, contentType, depth, data, words)], Returned))
    && (contentType in {0x3, 0x6, 0x7} ==>
          r == Report([LeafCall(tag, num, contentType, depth, data, 4 * words - padding)], Returned))
    && (contentType in {0x4, 0x5} ==>
          r == Report([LeafCall(tag, num, contentType, depth, data, 2 * words - padding / 2)], Returned))
    && (contentType in {0x8, 0x9, 0xa} ==>
          r == Report([LeafCall(tag, num, contentType, depth, data, words / 2)], Returned))
    && (contentType in {0xc, 0xd, 0xe, 0x10, 0x20} ==>
          r == WalkChildren(buf, data, 0, words, contentType, depth + 1).0)
    && (0x10 < contentType < 0x20 || 0x20 < contentType < 0x40 ==> r == Report([], IllegalContentType))
  }

  lemma ContentNumbers(contentType: int, words: nat, padding: int)
    requires 0 <= contentType < 0x40 && 0 <= padding < 4 && 4 * words <= INT_MAX
    ensures var kind, count := ContentOf(contentType), ElementCount(contentType, words, padding);
            && (contentType in {0x0, 0x1, 0x2, 0xb, 0xf} ==> kind == FourByte && count == words)
            && (contentType in {0x3, 0x6, 0x7} ==> kind == OneByte && count == 4 * words - padding)
            && (contentType in {0x4, 0x5} ==> kind == TwoByte && count == 2 * words - padding / 2)
            && (contentType in {0x8, 0x9, 0xa} ==> kind == EightByte && count == words / 2)
            && (contentType in {0xc, 0xd, 0xe, 0x10, 0x20} ==> kind == Container)
            && (0x10 < contentType < 0x20 || 0x20 < contentType < 0x40 ==> kind == Illegal)
  {
  }

  /** A bank whose header reads as the given numbers is walked as these. */
  lemma HeaderNumbers(buf: seq<Word>, at: nat, e: Encoding, code: int, depth: int, h: Header)
    requires EncodingOf(code) == Some(e) && at + HeaderWords(e) <= |buf| && ReadHeader(buf, at, e) == h
    requires 0 <= h.contentType < 0x40 && 0 <= h.padding < 4 && 0 <= BankLen(h, e) && 4 * BankLen(h, e) <= INT_MAX
    ensures WalkedAs(Walk(buf, at, code, depth), buf, h.contentType, h.tag, h.num, depth, at + HeaderWords(e),
                     BankLen(h, e), h.padding)
  {
    hide Walk, WalkChildren, ContentOf, ElementCount, ReadHeader, BankLen, EncodingOf;
    WalkUnfolds(buf, at, e, code, depth);
    ContentNumbers(h.contentType, BankLen(h, e), h.padding);
  }

  /** Under the codes 0xe and 0x10 a bank has two header words: length; tag, padding, content type, num. */
  lemma BankCodes(buf: seq<Word>, at: nat, code: int, depth: int)
    requires (code == 0xe || code == 0x10) && at + 2 <= |buf| && 1 <= buf[at] <= 0x2000_0000
    ensures var w := buf[at + 1];
            WalkedAs(Walk(buf, at, code, depth), buf, w / 0x100 % 0x40, w / 0x1_0000, w % 0x100, depth, at + 2,
                     buf[at] - 1, w / 0x4000 % 4)
  {
    hide Walk, WalkedAs;
    var w := buf[at + 1];
    HeaderNumbers(buf, at, Bank, code, depth,
                  Header(buf[at] as int + 1, w / 0x1_0000, w / 0x100 % 0x40, w % 0x100, w / 0x4000 % 4));
  }

  /** Under the codes 0xd and 0x20 it has one: an 8-bit tag, padding, a 6-bit content type, length. */
  lemma SegmentCodes(buf: seq<Word>, at: nat, code: int, depth: int)
    requires (code == 0xd || code == 0x20) && at < |buf|
    ensures var w := buf[at];
            WalkedAs(Walk(buf, at, code, depth), buf, w / 0x1_0000 % 0x40, w / 0x100_0000, 0, depth, at + 1,
                     w % 0x1_0000, w / 0x40_0000 % 4)
  {
    hide Walk, WalkedAs;
    var w := buf[at];
    HeaderNumbers(buf, at, Segment, code, depth,
                  Header(w % 0x1_0000 + 1, w / 0x100_0000, w / 0x1_0000 % 0x40, 0, w / 0x40_0000 % 4));
  }

  /** Under the codes 0xc and 0x40 too: a 12-bit tag, a 4-bit content type, length, and no padding. */
  lemma TagSegmentCodes(buf: seq<Word>, at: nat, code: int, depth: int)
    requires (code == 0xc || code == 0x40) && at < |buf|
    ensures var w := buf[at];
            WalkedAs(Walk(buf, at, code, depth), buf, w / 0x1_0000 % 0x10, w / 0x10_0000, 0, depth, at + 1,
                     w % 0x1_0000, 0)
  {
    hide Walk, WalkedAs;
    var w := buf[at];
    HeaderNumbers(buf, at, TagSegment, code, depth,
                  Header(w % 0x1_0000 + 1, w / 0x10_0000, w / 0x1_0000 % 0x10, 0, 0));
  }

  /** Any other code is an error. */
  lemma OtherCodes(buf: seq<Word>, at: nat, code: int, depth: int)
    requires code !in {0xc, 0xd, 0xe, 0x10, 0x20, 0x40}
    ensures Walk(buf, at, code, depth) == Report([], IllegalBankType)
  {
  }

  /** A bank of segments and one of tagsegments, each with one leaf: tags 5 and 0x50 from the same word. */
  lemma SegmentExample()
    ensures Walk([3, 0x1_2000, 0x0501_0001, 7], 0, 0xe, 0) == Report([LeafCall(5, 0, 1, 1, 3, 1)], Returned)
    ensures Walk([3, 0x1_0c00, 0x0501_0001, 7], 0, 0xe, 0) == Report([LeafCall(0x50, 0, 1, 1, 3, 1)], Returned)
  {
    OneChild([3, 0x1_2000, 0x0501_0001, 7], 0x20);
    OneChild([3, 0x1_0c00, 0x0501_0001, 7], 0xc);
  }

  lemma OneChild(buf: seq<Word>, code: int)
    requires code == 0x20 || code == 0xc
    requires buf == [3, 0x1_0000 + code * 0x100, 0x0501_0001, 7]
    ensures Walk(buf, 0, 0xe, 0)
         == Report([LeafCall(if code == 0x20 then 5 else 0x50, 0, 1, 1, 3, 1)], Returned)
  {
    hide Walk, WalkChildren, Advance;
    BankCodes(buf, 0, 0xe, 0);
    if code == 0x20 {
      SegmentCodes(buf, 2, code, 1);
    } else {
      TagSegmentCodes(buf, 2, code, 1);
    }
    LoopMovesOn(0, buf[2], code);
    WalkChildrenUnfolds(buf, 2, 0, 2, code, 1);
    EmptyForest(buf, 2, 2, 2, code, 1);
    var leaves := Walk(buf, 2, code, 1).leaves;
    assert leaves + [] == leaves;
  }
}
