// The additional element status page (`sg_ses -p aes`), as a sequence of classified
// lines, and the parser that turns it into per-type-descriptor blocks.
module AesPage {
  import opened Options

  // What the parser's regular expressions see in one line, in their order of precedence.
  datatype Line =
    | Header(elementType: string, subenclosure: nat, typeIndex: nat)
    | BadHeader  // opens with "Element type:" but is not a full header
    | IndexedElem(index: nat, eiioe: Option<nat>)
    | PlainElem  // eip=0: "Element n descriptor"
    | BadElem    // opens with "Element" in no known form
    | SlotLine(slot: nat)
    | AddressLine(address: string)
    | OtherLine
  {
    predicate IsType() { Header? || BadHeader? }
    predicate IsElem() { IndexedElem? || PlainElem? }
    predicate EndsEntry() { IsElem() || BadElem? }
  }

  datatype Entry = Entry(index: Option<nat>, eiioe: Option<nat>, slot: Option<nat>, address: Option<string>)

  datatype Block = Block(elementType: string, subenclosure: nat, typeIndex: nat, entries: seq<Entry>, malformed: bool)

  // ------------------------------------------------------------------ meaning of a page

  // The lines of a page before its first type line.
  function Body(lines: seq<Line>): (body: seq<Line>)
    ensures |body| <= |lines| && body == lines[..|body|]
    ensures forall i :: 0 <= i < |body| ==> !body[i].IsType()
    ensures |body| < |lines| ==> lines[|body|].IsType()
  {
    if lines == [] || lines[0].IsType() then [] else [lines[0]] + Body(lines[1..])
  }

  // The lines of a block body that still speak about the element opened just before them.
  function Attributes(body: seq<Line>): seq<Line> {
    if body == [] || body[0].EndsEntry() then [] else [body[0]] + Attributes(body[1..])
  }

  function FirstSlot(attributes: seq<Line>): Option<nat> {
    if attributes == [] then None
    else if attributes[0].SlotLine? then Some(attributes[0].slot)
    else FirstSlot(attributes[1..])
  }

  function FirstAddress(attributes: seq<Line>): Option<string> {
    if attributes == [] then None
    else if attributes[0].AddressLine? then Some(attributes[0].address)
    else FirstAddress(attributes[1..])
  }

  function EntryOf(elem: Line, attributes: seq<Line>): Entry
    requires elem.IsElem()
  {
    Entry(if elem.IndexedElem? then Some(elem.index) else None,
          if elem.IndexedElem? then elem.eiioe else None,
          FirstSlot(attributes), FirstAddress(attributes))
  }

  function Entries(body: seq<Line>): seq<Entry> {
    if body == [] then []
    else if body[0].IsElem() then [EntryOf(body[0], Attributes(body[1..]))] + Entries(body[1..])
    else Entries(body[1..])
  }

  function BlockOf(header: Line, body: seq<Line>): Block
    requires header.Header?
  {
    Block(header.elementType, header.subenclosure, header.typeIndex, Entries(body), BadElem in body)
  }

  // Every recognised header opens a block made of the lines up to the next type line.
  // Nothing else contributes.
  function Blocks(page: seq<Line>): seq<Block> {
    if page == [] then []
    else if page[0].Header? then [BlockOf(page[0], Body(page[1..]))] + Blocks(page[1..])
    else Blocks(page[1..])
  }

  predicate StartsWithType(page: seq<Line>) { page == [] || page[0].IsType() }

  predicate NoTypeLines(lines: seq<Line>) { forall i :: 0 <= i < |lines| ==> !lines[i].IsType() }

  // ------------------------------------------------------------------ compositionality

  lemma {:induction false} BodyStopsAtType(p: seq<Line>, q: seq<Line>)
    requires StartsWithType(q)
    ensures Body(p + q) == Body(p)
  {
    if p == [] {
      assert p + q == q;
    } else if !p[0].IsType() {
      assert (p + q)[1..] == p[1..] + q;
      BodyStopsAtType(p[1..], q);
    }
  }

  // A page may be cut at any type line: the parts parse independently.
  lemma {:induction false} ParseIsCompositional(p: seq<Line>, q: seq<Line>)
    requires StartsWithType(q)
    ensures Blocks(p + q) == Blocks(p) + Blocks(q)
  {
    if p == [] {
      assert p + q == q;
    } else {
      assert (p + q)[1..] == p[1..] + q;
      ParseIsCompositional(p[1..], q);
      BodyStopsAtType(p[1..], q);
    }
  }

  lemma {:induction false} NoTypeNoBlocks(lines: seq<Line>)
    requires NoTypeLines(lines)
    ensures Blocks(lines) == [] && Body(lines) == lines
  {
    if lines != [] {
      NoTypeNoBlocks(lines[1..]);
    }
  }

  lemma OneBlock(header: Line, body: seq<Line>)
    requires header.Header? && NoTypeLines(body)
    ensures Blocks([header] + body) == [BlockOf(header, body)]
  {
    assert ([header] + body)[1..] == body;
    NoTypeNoBlocks(body);
  }

  // Lines under an unparseable header are dropped, never credited to an earlier block.
  lemma OrphanLinesContributeNothing(p: seq<Line>, orphans: seq<Line>, q: seq<Line>)
    requires NoTypeLines(orphans) && StartsWithType(q)
    ensures Blocks(p + ([BadHeader] + orphans + q)) == Blocks(p) + Blocks(q)
  {
    var bad := [BadHeader] + orphans;
    assert bad[1..] == orphans;
    NoTypeNoBlocks(orphans);
    ParseIsCompositional(bad, q);
    ParseIsCompositional(p, bad + q);
  }

  lemma {:induction false} AttributesStop(a: seq<Line>, b: seq<Line>)
    requires b == [] || b[0].EndsEntry()
    ensures Attributes(a + b) == Attributes(a)
  {
    if a == [] {
      assert a + b == b;
    } else if !a[0].EndsEntry() {
      assert (a + b)[1..] == a[1..] + b;
      AttributesStop(a[1..], b);
    }
  }

  lemma {:induction false} EntriesAreCompositional(a: seq<Line>, b: seq<Line>)
    requires b == [] || b[0].EndsEntry()
    ensures Entries(a + b) == Entries(a) + Entries(b)
  {
    if a == [] {
      assert a + b == b;
    } else {
      assert (a + b)[1..] == a[1..] + b;
      EntriesAreCompositional(a[1..], b);
      AttributesStop(a[1..], b);
    }
  }

  predicate OnlyAttributes(lines: seq<Line>) { forall i :: 0 <= i < |lines| ==> !lines[i].EndsEntry() }

  lemma {:induction false} NoElemNoEntries(lines: seq<Line>)
    requires OnlyAttributes(lines)
    ensures Entries(lines) == [] && Attributes(lines) == lines
  {
    if lines != [] {
      NoElemNoEntries(lines[1..]);
    }
  }

  lemma OneEntry(elem: Line, attributes: seq<Line>)
    requires elem.IsElem() && OnlyAttributes(attributes)
    ensures Entries([elem] + attributes) == [EntryOf(elem, attributes)]
  {
    assert ([elem] + attributes)[1..] == attributes;
    NoElemNoEntries(attributes);
  }

  lemma {:induction false} FirstAttribute(attributes: seq<Line>, line: Line)
    ensures FirstSlot(attributes + [line]) ==
            if FirstSlot(attributes).None? && line.SlotLine? then Some(line.slot) else FirstSlot(attributes)
    ensures FirstAddress(attributes + [line]) ==
            if FirstAddress(attributes).None? && line.AddressLine? then Some(line.address) else FirstAddress(attributes)
  {
    if attributes != [] {
      assert (attributes + [line])[1..] == attributes[1..] + [line];
      FirstAttribute(attributes[1..], line);
    }
  }

  // ------------------------------------------------------------------ the parser

  // A block body cut into what is settled and the stretch since its last element line.
  predicate Cut(settled: seq<Line>, open: seq<Line>) {
    && (if open == [] then settled == [] else OnlyAttributes(open[1..]))
    && (open != [] && !open[0].EndsEntry() ==> settled == [])
  }

  predicate InEntry(open: seq<Line>) { open != [] && open[0].IsElem() }

  lemma CutEntries(settled: seq<Line>, open: seq<Line>)
    requires Cut(settled, open)
    ensures Entries(settled + open) ==
            Entries(settled) + if InEntry(open) then [EntryOf(open[0], open[1..])] else []
  {
    if open == [] {
      assert settled + open == settled;
    } else {
      assert open == [open[0]] + open[1..];
      if open[0].IsElem() {
        OneEntry(open[0], open[1..]);
      } else {
        NoElemNoEntries(open[1..]);
      }
      if open[0].EndsEntry() {
        EntriesAreCompositional(settled, open);
      } else {
        assert settled + open == open;
      }
    }
  }

  // current_entry.setdefault on the fields an attribute line carries.
  function WithAttribute(entry: Entry, line: Line): Entry {
    match line
    case SlotLine(s) => if entry.slot.None? then entry.(slot := Some(s)) else entry
    case AddressLine(a) => if entry.address.None? then entry.(address := Some(a)) else entry
    case _ => entry
  }

  // What one more line does to a block: an element opens an entry, an unknown one flags the block.
  lemma ExtendByElement(header: Line, body: seq<Line>, line: Line)
    requires header.Header? && line.EndsEntry()
    ensures BlockOf(header, body + [line]) ==
            var block := BlockOf(header, body);
            if line.BadElem? then block.(malformed := true)
            else block.(entries := block.entries + [EntryOf(line, [])])
  {
    EntriesAreCompositional(body, [line]);
    assert Entries([line]) == if line.IsElem() then [EntryOf(line, [])] else [] by {
      assert [line][1..] == [];
    }
    assert Entries(body) + [] == Entries(body);
  }

  // Any other line can only add to the entry that is open.
  lemma ExtendByAttribute(header: Line, settled: seq<Line>, open: seq<Line>, line: Line)
    requires header.Header? && Cut(settled, open) && !line.IsType() && !line.EndsEntry()
    ensures BlockOf(header, settled + open + [line]) ==
            var block := BlockOf(header, settled + open);
            if InEntry(open) then
              block.(entries := Entries(settled) + [WithAttribute(EntryOf(open[0], open[1..]), line)])
            else block
  {
    CutEntries(settled, open);
    var longer := open + [line];
    assert settled + open + [line] == settled + longer;
    if open == [] {
      assert longer == [line];
    } else {
      assert longer[1..] == open[1..] + [line];
      FirstAttribute(open[1..], line);
    }
    CutEntries(settled, longer);
  }

  // The page up to some point: `segment` starts at its last type line.
  predicate Segmented(before: seq<Line>, segment: seq<Line>) {
    && (segment != [] ==> NoTypeLines(segment[1..]))
    && (before != [] ==> StartsWithType(segment) && segment != [])
  }

  lemma SegmentBlocks(before: seq<Line>, segment: seq<Line>)
    requires Segmented(before, segment)
    ensures Blocks(before + segment) ==
            Blocks(before) + if segment != [] && segment[0].Header? then [BlockOf(segment[0], segment[1..])] else []
  {
    if before == [] {
      assert before + segment == segment;
    } else {
      ParseIsCompositional(before, segment);
    }
    if segment != [] {
      assert segment == [segment[0]] + segment[1..];
      NoTypeNoBlocks(segment[1..]);
      if segment[0].Header? {
        OneBlock(segment[0], segment[1..]);
      }
    }
  }

  // One line inside a block: the parser's element and attribute branches.
  method TakeLine(block: Block, inEntry: bool, line: Line, ghost header: Line, ghost settled: seq<Line>, ghost open: seq<Line>)
    returns (after: Block, nowInEntry: bool, ghost nowSettled: seq<Line>, ghost nowOpen: seq<Line>)
    requires header.Header? && Cut(settled, open) && !line.IsType()
    requires block == BlockOf(header, settled + open) && inEntry == InEntry(open)
    ensures after == BlockOf(header, settled + open + [line])
    ensures Cut(nowSettled, nowOpen) && nowSettled + nowOpen == settled + open + [line] && nowInEntry == InEntry(nowOpen)
  {
    after, nowInEntry, nowSettled, nowOpen := block, inEntry, settled, open + [line];
    if line.EndsEntry() {
      ExtendByElement(header, settled + open, line);
      nowSettled, nowOpen := settled + open, [line];
      nowInEntry := line.IsElem();
      if line.BadElem? {
        after := block.(malformed := true);
      } else {
        var entry := Entry(if line.IndexedElem? then Some(line.index) else None,
                           if line.IndexedElem? then line.eiioe else None, None, None);
        after := block.(entries := block.entries + [entry]);
      }
    } else {
      ExtendByAttribute(header, settled, open, line);
      if inEntry {
        CutEntries(settled, open);
        var n := |block.entries| - 1;
        after := block.(entries := block.entries[n := WithAttribute(block.entries[n], line)]);
      }
    }
  }

  // The parser's line loop. `inBlock` and `inEntry` say whether current_block and
  // current_entry are set; when they are, they are the last block and its last entry.
  method ParseAdditionalElementStatus(page: seq<Line>) returns (blocks: seq<Block>)
    ensures blocks == Blocks(page)
  {
    blocks := [];
    var inBlock, inEntry := false, false;
    ghost var before, segment, settled, open: seq<Line> := [], [], [], [];
    for i := 0 to |page|
      invariant page[..i] == before + segment && Segmented(before, segment)
      invariant inBlock == (segment != [] && segment[0].Header?)
      invariant if inBlock then blocks == Blocks(before) + [BlockOf(segment[0], segment[1..])] else blocks == Blocks(before)
      invariant inBlock ==> segment[1..] == settled + open && Cut(settled, open)
      invariant inEntry == (inBlock && InEntry(open))
    {
      var line := page[i];
      assert page[..i + 1] == page[..i] + [line];
      if line.IsType() {
        SegmentBlocks(before, segment);
        before, segment, settled, open := before + segment, [line], [], [];
        inBlock, inEntry := line.Header?, false;
        if inBlock {
          blocks := blocks + [Block(line.elementType, line.subenclosure, line.typeIndex, [], false)];
        }
      } else if inBlock {
        var last := |blocks| - 1;
        assert blocks[..last] == Blocks(before);
        var block: Block;
        block, inEntry, settled, open := TakeLine(blocks[last], inEntry, line, segment[0], settled, open);
        blocks := blocks[..last] + [block];
        assert (segment + [line])[1..] == segment[1..] + [line];
        segment := segment + [line];
      } else {
        segment := segment + [line];
      }
    }
    assert page[..|page|] == page;
    SegmentBlocks(before, segment);
  }
}
