// Laws of the additional element status parser: it inverts printing, and an element
// header it does not know can only ever distrust the block it stands in.
module AesLaws {
  import opened Options
  import opened AesPage

  // ------------------------------------------------------------------ printing

  // The parser records eiioe only next to a printed index.
  predicate Printable(entry: Entry) { entry.eiioe.Some? ==> entry.index.Some? }

  predicate PrintableBlock(block: Block) {
    forall i :: 0 <= i < |block.entries| ==> Printable(block.entries[i])
  }

  predicate PrintableBlocks(blocks: seq<Block>) {
    forall i :: 0 <= i < |blocks| ==> PrintableBlock(blocks[i])
  }

  function AttributeLines(entry: Entry): seq<Line> {
    (if entry.slot.Some? then [SlotLine(entry.slot.value)] else [])
    + (if entry.address.Some? then [AddressLine(entry.address.value)] else [])
  }

  function PrintEntry(entry: Entry): seq<Line> {
    [if entry.index.Some? then IndexedElem(entry.index.value, entry.eiioe) else PlainElem] + AttributeLines(entry)
  }

  function PrintEntries(entries: seq<Entry>): seq<Line> {
    if entries == [] then [] else PrintEntry(entries[0]) + PrintEntries(entries[1..])
  }

  function PrintBody(block: Block): seq<Line> {
    PrintEntries(block.entries) + if block.malformed then [BadElem] else []
  }

  function PrintPage(blocks: seq<Block>): seq<Line> {
    if blocks == [] then []
    else
      var block := blocks[0];
      [Header(block.elementType, block.subenclosure, block.typeIndex)] + PrintBody(block) + PrintPage(blocks[1..])
  }

  lemma {:induction false} PrintedEntriesShape(entries: seq<Entry>)
    ensures NoTypeLines(PrintEntries(entries)) && BadElem !in PrintEntries(entries)
    ensures PrintEntries(entries) != [] ==> PrintEntries(entries)[0].EndsEntry()
  {
    if entries != [] {
      PrintedEntriesShape(entries[1..]);
    }
  }

  lemma PrintedEntryParses(entry: Entry)
    requires Printable(entry)
    ensures Entries(PrintEntry(entry)) == [entry]
  {
    var attributes := AttributeLines(entry);
    assert FirstSlot(attributes) == entry.slot && FirstAddress(attributes) == entry.address by {
      if entry.slot.Some? {
        assert attributes[1..] == if entry.address.Some? then [AddressLine(entry.address.value)] else [];
      }
    }
    OneEntry(PrintEntry(entry)[0], attributes);
  }

  lemma {:induction false} PrintedEntriesParse(entries: seq<Entry>)
    requires forall i :: 0 <= i < |entries| ==> Printable(entries[i])
    ensures Entries(PrintEntries(entries)) == entries
  {
    if entries != [] {
      PrintedEntriesShape(entries[1..]);
      PrintedEntriesParse(entries[1..]);
      PrintedEntryParses(entries[0]);
      EntriesAreCompositional(PrintEntry(entries[0]), PrintEntries(entries[1..]));
    }
  }

  lemma PrintedBodyParses(header: Line, block: Block)
    requires PrintableBlock(block)
    requires header == Header(block.elementType, block.subenclosure, block.typeIndex)
    ensures NoTypeLines(PrintBody(block)) && BlockOf(header, PrintBody(block)) == block
  {
    PrintedEntriesShape(block.entries);
    PrintedEntriesParse(block.entries);
    if block.malformed {
      EntriesAreCompositional(PrintEntries(block.entries), [BadElem]);
      assert PrintBody(block)[|PrintEntries(block.entries)|] == BadElem;
    } else {
      assert PrintBody(block) == PrintEntries(block.entries);
    }
  }

  // Printing any list of blocks the parser could ever return, and parsing it, gives it back,
  // malformed flags included.
  lemma {:induction false} ParseInvertsPrint(blocks: seq<Block>)
    requires PrintableBlocks(blocks)
    ensures Blocks(PrintPage(blocks)) == blocks
  {
    if blocks != [] {
      var block := blocks[0];
      var header := Header(block.elementType, block.subenclosure, block.typeIndex);
      assert PrintableBlock(block);
      forall i | 0 <= i < |blocks[1..]| ensures PrintableBlock(blocks[1..][i]) {
        assert PrintableBlock(blocks[i + 1]);
      }
      ParseInvertsPrint(blocks[1..]);
      PrintedBodyParses(header, block);
      OneBlock(header, PrintBody(block));
      ParseIsCompositional([header] + PrintBody(block), PrintPage(blocks[1..]));
    }
  }

  lemma {:induction false} ParsedEntriesPrintable(body: seq<Line>)
    ensures forall i :: 0 <= i < |Entries(body)| ==> Printable(Entries(body)[i])
  {
    if body != [] {
      ParsedEntriesPrintable(body[1..]);
    }
  }

  lemma {:induction false} ParsedBlocksPrintable(page: seq<Line>)
    ensures PrintableBlocks(Blocks(page))
  {
    if page != [] {
      ParsedBlocksPrintable(page[1..]);
      if page[0].Header? {
        ParsedEntriesPrintable(Body(page[1..]));
      }
    }
  }

  // Hence parsing loses nothing the parser itself would look at again, on every page.
  lemma ReparsingIsStable(page: seq<Line>)
    ensures Blocks(PrintPage(Blocks(page))) == Blocks(page)
  {
    ParsedBlocksPrintable(page);
    ParseInvertsPrint(Blocks(page));
  }

  // ------------------------------------------------------------------ unknown element headers

  function LastType(lines: seq<Line>): Option<Line> {
    if lines == [] then None
    else if lines[|lines| - 1].IsType() then Some(lines[|lines| - 1])
    else LastType(lines[..|lines| - 1])
  }

  lemma {:induction false} SplitAtLastType(lines: seq<Line>) returns (before: seq<Line>, segment: seq<Line>)
    ensures lines == before + segment && Segmented(before, segment)
    ensures LastType(lines) == if segment != [] && segment[0].IsType() then Some(segment[0]) else None
  {
    if lines == [] {
      before, segment := [], [];
    } else {
      var n := |lines| - 1;
      if lines[n].IsType() {
        before, segment := lines[..n], lines[n..];
      } else {
        before, segment := SplitAtLastType(lines[..n]);
        segment := segment + [lines[n]];
      }
    }
  }

  // Blocks that differ at most in what the last element before `at` was said to carry.
  predicate SameButAttributesAt(block: Block, other: Block, at: int) {
    && |other.entries| == |block.entries|
    && other.elementType == block.elementType
    && other.subenclosure == block.subenclosure
    && other.typeIndex == block.typeIndex
    && (forall i :: 0 <= i < |block.entries| ==>
         && other.entries[i].index == block.entries[i].index
         && other.entries[i].eiioe == block.entries[i].eiioe
         && (i != at ==> other.entries[i] == block.entries[i]))
  }

  // What more lines do to the entries of a body: add their own, after whatever they add to
  // the last entry before them.
  lemma {:induction false} EntriesOfConcat(a: seq<Line>, b: seq<Line>) returns (last: Entry)
    ensures Entries(a) == [] ==> Entries(a + b) == Entries(b)
    ensures Entries(a) != [] ==>
              var n := |Entries(a)| - 1;
              && Entries(a + b) == Entries(a)[..n] + [last] + Entries(b)
              && last.index == Entries(a)[n].index && last.eiioe == Entries(a)[n].eiioe
  {
    if a == [] {
      assert a + b == b;
      last := Entry(None, None, None, None);
    } else {
      assert (a + b)[1..] == a[1..] + b;
      last := EntriesOfConcat(a[1..], b);
      if a[0].IsElem() {
        if Entries(a[1..]) == [] {
          last := EntryOf(a[0], Attributes(a[1..] + b));
        } else {
          AttributesWithin(a[1..], b);
          Shifted(EntryOf(a[0], Attributes(a[1..])), Entries(a[1..]), last, Entries(b));
        }
      }
    }
  }

  lemma Shifted<T>(x: T, rest: seq<T>, last: T, more: seq<T>)
    requires rest != []
    ensures [x] + (rest[..|rest| - 1] + [last] + more) == ([x] + rest)[..|rest|] + [last] + more
  {
  }

  lemma {:induction false} AttributesWithin(a: seq<Line>, b: seq<Line>)
    requires Entries(a) != []
    ensures Attributes(a + b) == Attributes(a)
  {
    assert (a + b)[1..] == a[1..] + b;
    if !a[0].EndsEntry() {
      AttributesWithin(a[1..], b);
    }
  }

  // `now` is `was` with block k, if there is one, flagged and otherwise undisturbed.
  predicate FlagsOnly(was: seq<Block>, now: seq<Block>, flagged: Option<nat>, lastEntry: int) {
    && |now| == |was|
    && (forall k :: 0 <= k < |was| && flagged != Some(k) ==> now[k] == was[k])
    && (flagged.Some? ==>
          && flagged.value < |was|
          && now[flagged.value].malformed
          && SameButAttributesAt(was[flagged.value], now[flagged.value], lastEntry))
  }

  lemma FlagsMiddle(a: seq<Block>, x: Block, y: Block, c: seq<Block>, lastEntry: int)
    requires y.malformed && SameButAttributesAt(x, y, lastEntry)
    ensures FlagsOnly(a + [x] + c, a + [y] + c, Some(|a|), lastEntry)
  {
  }

  // The block an element line after `p` would belong to, and the last entry it has so far.
  function OpenBlock(p: seq<Line>): Option<nat> {
    if LastType(p).Some? && LastType(p).value.Header? && Blocks(p) != [] then Some(|Blocks(p)| - 1) else None
  }

  // The last entry that block has so far: the only one whose attribute lines can be cut off.
  function OpenEntry(p: seq<Line>): int {
    if OpenBlock(p).Some? && OpenBlock(p).value < |Blocks(p)| then |Blocks(p)[OpenBlock(p).value].entries| - 1 else -1
  }

  // An unrecognised element header anywhere on a page flags exactly the block it stands in:
  // no block appears, vanishes or changes beside it, and no position in it moves; only the
  // entry just before the header can lose attribute lines. Under an unparseable header, or
  // before the first one, it changes nothing.
  lemma UnknownElementFlagsOnlyItsBlock(p: seq<Line>, q: seq<Line>)
    ensures LastType(p).Some? && LastType(p).value.Header? <==> OpenBlock(p).Some?
    ensures FlagsOnly(Blocks(p + q), Blocks(p + ([BadElem] + q)), OpenBlock(p), OpenEntry(p))
  {
    var before, segment := SplitAtLastType(p);
    var body := Body(q);
    var after := q[|body|..];
    AroundTheInsertion(p, q, before, segment, body, after);
    OpenIs(p, before, segment);
    OpenedIsFlagged(Blocks(before), segment, body, Blocks(after));
  }

  lemma OpenIs(p: seq<Line>, before: seq<Line>, segment: seq<Line>)
    requires Blocks(p) == Blocks(before) + Opened(segment, [])
    requires LastType(p) == if segment != [] && segment[0].IsType() then Some(segment[0]) else None
    ensures OpenBlock(p) == if Opened(segment, []) == [] then None else Some(|Blocks(before)|)
    ensures Opened(segment, []) != [] ==> OpenEntry(p) == |Entries(segment[1..])| - 1
  {
    if segment != [] {
      assert segment[1..] + [] == segment[1..];
    }
  }

  lemma OpenedIsFlagged(a: seq<Block>, segment: seq<Line>, body: seq<Line>, c: seq<Block>)
    ensures Opened(segment, []) != [] ==>
              FlagsOnly(a + Opened(segment, body) + c, a + Opened(segment, [BadElem] + body) + c, Some(|a|), |Entries(segment[1..])| - 1)
    ensures Opened(segment, []) == [] ==> Opened(segment, body) == Opened(segment, [BadElem] + body) == []
  {
    if segment != [] && segment[0].Header? {
      UnknownElementFlagsBlock(segment[0], segment[1..], body);
      FlagsMiddle(a, Opened(segment, body)[0], Opened(segment, [BadElem] + body)[0], c, |Entries(segment[1..])| - 1);
    }
  }

  lemma AroundTheInsertion(p: seq<Line>, q: seq<Line>,
                           before: seq<Line>, segment: seq<Line>, body: seq<Line>, after: seq<Line>)
    requires p == before + segment && Segmented(before, segment)
    requires q == body + after && NoTypeLines(body) && StartsWithType(after)
    ensures Blocks(p) == Blocks(before) + Opened(segment, [])
    ensures Blocks(p + q) == Blocks(before) + Opened(segment, body) + Blocks(after)
    ensures Blocks(p + ([BadElem] + q)) == Blocks(before) + Opened(segment, [BadElem] + body) + Blocks(after)
  {
    UpToHere(before, segment);
    FromHere(before, segment, body, after);
    assert [BadElem] + q == ([BadElem] + body) + after;
    FromHere(before, segment, [BadElem] + body, after);
  }

  lemma UpToHere(before: seq<Line>, segment: seq<Line>)
    requires Segmented(before, segment)
    ensures Blocks(before + segment) == Blocks(before) + Opened(segment, [])
  {
    SegmentBlocks(before, segment);
    if segment != [] {
      assert segment[1..] + [] == segment[1..];
    }
  }

  lemma FromHere(before: seq<Line>, segment: seq<Line>, tail: seq<Line>, after: seq<Line>)
    requires Segmented(before, segment) && NoTypeLines(tail) && StartsWithType(after)
    ensures Blocks((before + segment) + (tail + after)) == Blocks(before) + Opened(segment, tail) + Blocks(after)
  {
    PageWithTail(before, segment, tail, after);
    Regroup(before, segment, tail, after);
  }

  // The block a segment opens when `tail` still belongs to it.
  function Opened(segment: seq<Line>, tail: seq<Line>): seq<Block> {
    if segment != [] && segment[0].Header? then [BlockOf(segment[0], segment[1..] + tail)] else []
  }

  lemma UnknownElementFlagsBlock(header: Line, own: seq<Line>, body: seq<Line>)
    requires header.Header?
    ensures Entries(own + []) == Entries(own)
    ensures BlockOf(header, own + ([BadElem] + body)).malformed
    ensures SameButAttributesAt(BlockOf(header, own + body), BlockOf(header, own + ([BadElem] + body)),
                                |Entries(own)| - 1)
  {
    assert own + [] == own;
    assert (own + ([BadElem] + body))[|own|] == BadElem;
    var e, f := Entries(own + body), Entries(own + ([BadElem] + body));
    assert |f| == |e| && forall i :: 0 <= i < |e| ==> f[i].index == e[i].index && f[i].eiioe == e[i].eiioe
                                                       && (i != |Entries(own)| - 1 ==> f[i] == e[i]) by {
      UnknownElementMovesNothing(own, body);
    }
  }

  lemma UnknownElementMovesNothing(own: seq<Line>, body: seq<Line>)
    ensures |Entries(own + ([BadElem] + body))| == |Entries(own + body)|
    ensures forall i :: 0 <= i < |Entries(own + body)| ==>
              var e, f := Entries(own + body)[i], Entries(own + ([BadElem] + body))[i];
              f.index == e.index && f.eiioe == e.eiioe && (i != |Entries(own)| - 1 ==> f == e)
  {
    assert ([BadElem] + body)[1..] == body;
    assert Entries([BadElem] + body) == Entries(body);
    var x := EntriesOfConcat(own, body);
    var y := EntriesOfConcat(own, [BadElem] + body);
  }

  lemma Regroup<T>(a: seq<T>, b: seq<T>, c: seq<T>, d: seq<T>)
    ensures (a + b) + (c + d) == a + (b + c) + d
  {
  }

  lemma PageWithTail(before: seq<Line>, segment: seq<Line>, tail: seq<Line>, after: seq<Line>)
    requires Segmented(before, segment) && NoTypeLines(tail) && StartsWithType(after)
    ensures Blocks(before + (segment + tail) + after) ==
            Blocks(before) + Opened(segment, tail) + Blocks(after)
  {
    ParseIsCompositional(before + (segment + tail), after);
    if segment == [] {
      assert segment + tail == tail;
      SegmentBlocks([], tail);
      assert before + tail == [] + tail;
    } else {
      assert (segment + tail)[1..] == segment[1..] + tail;
      SegmentBlocks(before, segment + tail);
    }
  }
}
