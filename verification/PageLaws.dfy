// What each line of the two printed pages is worth in its place: which lines an entry or a
// descriptor is read from, and which it is not.
module PageLaws {
  import opened Options
  import Aes = AesPage
  import Config = ConfigPage

  // ------------------------------------------------------------------ additional element status

  predicate OpensEntry(line: Aes.Line) { line.IndexedElem? || line.PlainElem? }

  // Lines that say something of the element before them, or nothing.
  predicate Plain(lines: seq<Aes.Line>) {
    forall i :: 0 <= i < |lines| ==> lines[i].SlotLine? || lines[i].AddressLine? || lines[i].OtherLine?
  }

  // The first slot line among them gives the slot; later ones do not change it.
  ghost predicate SlotSaid(lines: seq<Aes.Line>, slot: Option<nat>) {
    match slot
    case None => forall i :: 0 <= i < |lines| ==> !lines[i].SlotLine?
    case Some(v) => exists i :: 0 <= i < |lines| && lines[i] == Aes.SlotLine(v) && forall j :: 0 <= j < i ==> !lines[j].SlotLine?
  }

  ghost predicate AddressSaid(lines: seq<Aes.Line>, address: Option<string>) {
    match address
    case None => forall i :: 0 <= i < |lines| ==> !lines[i].AddressLine?
    case Some(v) => exists i :: 0 <= i < |lines| && lines[i] == Aes.AddressLine(v)
                                && forall j :: 0 <= j < i ==> !lines[j].AddressLine?
  }

  lemma {:induction false} FirstSlotIsSaid(lines: seq<Aes.Line>)
    ensures SlotSaid(lines, Aes.FirstSlot(lines))
  {
    if lines != [] && !lines[0].SlotLine? {
      var rest := lines[1..];
      FirstSlotIsSaid(rest);
      if Aes.FirstSlot(rest).Some? {
        var i :| 0 <= i < |rest| && rest[i] == Aes.SlotLine(Aes.FirstSlot(rest).value) && forall j :: 0 <= j < i ==> !rest[j].SlotLine?;
        assert lines[i + 1] == rest[i];
        forall j | 0 <= j < i + 1 ensures !lines[j].SlotLine? {
          assert j > 0 ==> lines[j] == rest[j - 1];
        }
      } else {
        forall j | 0 <= j < |lines| ensures !lines[j].SlotLine? {
          assert j > 0 ==> lines[j] == rest[j - 1];
        }
      }
    }
  }

  lemma {:induction false} FirstAddressIsSaid(lines: seq<Aes.Line>)
    ensures AddressSaid(lines, Aes.FirstAddress(lines))
  {
    if lines != [] && !lines[0].AddressLine? {
      var rest := lines[1..];
      FirstAddressIsSaid(rest);
      if Aes.FirstAddress(rest).Some? {
        var i :| 0 <= i < |rest| && rest[i] == Aes.AddressLine(Aes.FirstAddress(rest).value)
                 && forall j :: 0 <= j < i ==> !rest[j].AddressLine?;
        assert lines[i + 1] == rest[i];
        forall j | 0 <= j < i + 1 ensures !lines[j].AddressLine? {
          assert j > 0 ==> lines[j] == rest[j - 1];
        }
      } else {
        forall j | 0 <= j < |lines| ensures !lines[j].AddressLine? {
          assert j > 0 ==> lines[j] == rest[j - 1];
        }
      }
    }
  }

  // An element line, and the plain lines up to the next element line of any kind, make one
  // entry; lines elsewhere do not reach it.
  lemma ElementReadsItsLines(before: seq<Aes.Line>, element: Aes.Line, own: seq<Aes.Line>, after: seq<Aes.Line>) returns (entry: Aes.Entry)
    requires OpensEntry(element) && Plain(own)
    requires after == [] || OpensEntry(after[0]) || after[0].BadElem?
    ensures Aes.Entries(before + ([element] + own + after)) == Aes.Entries(before) + [entry] + Aes.Entries(after)
    ensures element.PlainElem? ==> entry.index == None && entry.eiioe == None
    ensures element.IndexedElem? ==> entry.index == Some(element.index) && entry.eiioe == element.eiioe
    ensures SlotSaid(own, entry.slot) && AddressSaid(own, entry.address)
  {
    entry := Aes.EntryOf(element, own);
    FirstSlotIsSaid(own);
    FirstAddressIsSaid(own);
    Aes.OneEntry(element, own);
    Aes.EntriesAreCompositional([element] + own, after);
    Aes.EntriesAreCompositional(before, [element] + own + after);
  }

  // An unknown element line and the lines after it give nothing to any entry.
  lemma UnknownElementReadsNothing(before: seq<Aes.Line>, own: seq<Aes.Line>, after: seq<Aes.Line>)
    requires Plain(own) && (after == [] || OpensEntry(after[0]) || after[0].BadElem?)
    ensures Aes.Entries(before + ([Aes.BadElem] + own + after)) == Aes.Entries(before) + Aes.Entries(after)
  {
    var unknown := [Aes.BadElem] + own;
    assert Aes.Entries(unknown) == [] by {
      assert unknown[1..] == own;
      Aes.NoElemNoEntries(own);
    }
    assert Aes.Entries(unknown + after) == Aes.Entries(after) by {
      Aes.EntriesAreCompositional(unknown, after);
    }
    Aes.EntriesAreCompositional(before, unknown + after);
  }

  // Nor do lines before the first element line.
  lemma PlainLinesReadNothing(own: seq<Aes.Line>, after: seq<Aes.Line>)
    requires Plain(own) && (after == [] || OpensEntry(after[0]) || after[0].BadElem?)
    ensures Aes.Entries(own + after) == Aes.Entries(after)
  {
    Aes.NoElemNoEntries(own);
    Aes.EntriesAreCompositional(own, after);
  }

  predicate NoHeaders(lines: seq<Aes.Line>) { forall i :: 0 <= i < |lines| ==> !lines[i].Header? && !lines[i].BadHeader? }

  // A full header and the lines up to the next type line, full or not, make one block.
  lemma HeaderReadsItsLines(before: seq<Aes.Line>, header: Aes.Line, own: seq<Aes.Line>, after: seq<Aes.Line>)
    requires header.Header? && NoHeaders(own) && (after == [] || after[0].Header? || after[0].BadHeader?)
    ensures Aes.Blocks(before + ([header] + own + after)) ==
            Aes.Blocks(before)
            + [Aes.Block(header.elementType, header.subenclosure, header.typeIndex, Aes.Entries(own), Aes.BadElem in own)]
            + Aes.Blocks(after)
  {
    Aes.OneBlock(header, own);
    Aes.ParseIsCompositional([header] + own, after);
    Aes.ParseIsCompositional(before, [header] + own + after);
  }

  // ------------------------------------------------------------------ configuration

  // Line j, of at most w looked at after a type header, may still speak of its descriptor.
  ghost predicate Within(lines: seq<Config.Line>, w: nat, j: int) {
    && 0 <= j < |lines| && j < w
    && forall i :: 0 <= i < j ==> !lines[i].TypeHeader? && !lines[i].TextLine?
  }

  ghost predicate CountWithin(lines: seq<Config.Line>, w: nat, count: nat) {
    || (exists j :: Within(lines, w, j) && lines[j] == Config.CountLine(count) && forall i :: 0 <= i < j ==> !lines[i].CountLine?)
    || (count == 0 && forall j :: Within(lines, w, j) ==> !lines[j].CountLine?)
  }

  ghost predicate CaptionWithin(lines: seq<Config.Line>, w: nat, caption: string) {
    || (exists j :: Within(lines, w, j) && lines[j] == Config.TextLine(caption))
    || (caption == "" && forall j :: Within(lines, w, j) ==> !lines[j].TextLine?)
  }

  lemma WithinTail(lines: seq<Config.Line>, w: nat, j: int)
    requires lines != [] && w > 0 && j > 0 && !lines[0].TypeHeader? && !lines[0].TextLine?
    ensures Within(lines, w, j) <==> Within(lines[1..], w - 1, j - 1)
  {
    if Within(lines[1..], w - 1, j - 1) {
      forall i | 0 <= i < j ensures !lines[i].TypeHeader? && !lines[i].TextLine? {
        assert i > 0 ==> lines[i] == lines[1..][i - 1];
      }
    }
  }

  lemma {:induction false} CountInIsWithin(lines: seq<Config.Line>, w: nat)
    ensures CountWithin(lines, w, Config.CountIn(Config.Details(lines, w)))
    decreases w
  {
    if w > 0 && lines != [] && !lines[0].TypeHeader? {
      var details := Config.Details(lines, w);
      assert details[1..] == Config.Details(lines[1..], w - 1);
      if lines[0].CountLine? {
        assert Within(lines, w, 0);
      } else if lines[0].TextLine? {
        assert forall j :: Within(lines, w, j) ==> j == 0;
      } else {
        CountInIsWithin(lines[1..], w - 1);
        CountFromTail(lines, w, Config.CountIn(details));
      }
    }
  }

  lemma CountFromTail(lines: seq<Config.Line>, w: nat, count: nat)
    requires lines != [] && w > 0 && !lines[0].TypeHeader? && !lines[0].TextLine? && !lines[0].CountLine?
    requires CountWithin(lines[1..], w - 1, count)
    ensures CountWithin(lines, w, count)
  {
    var rest := lines[1..];
    if j :| Within(rest, w - 1, j) && rest[j] == Config.CountLine(count) && forall i :: 0 <= i < j ==> !rest[i].CountLine? {
      WithinTail(lines, w, j + 1);
      assert lines[j + 1] == rest[j];
      forall i | 0 <= i < j + 1 ensures !lines[i].CountLine? {
        assert i > 0 ==> lines[i] == rest[i - 1];
      }
    } else {
      forall j | Within(lines, w, j) ensures !lines[j].CountLine? {
        if j > 0 {
          WithinTail(lines, w, j);
          assert lines[j] == rest[j - 1];
        }
      }
    }
  }

  lemma {:induction false} CaptionInIsWithin(lines: seq<Config.Line>, w: nat)
    ensures CaptionWithin(lines, w, Config.CaptionIn(Config.Details(lines, w)))
    decreases w
  {
    if w > 0 && lines != [] && !lines[0].TypeHeader? {
      var details := Config.Details(lines, w);
      assert details[1..] == Config.Details(lines[1..], w - 1);
      if lines[0].TextLine? {
        assert Within(lines, w, 0);
      } else {
        CaptionInIsWithin(lines[1..], w - 1);
        CaptionFromTail(lines, w, Config.CaptionIn(details));
      }
    }
  }

  lemma CaptionFromTail(lines: seq<Config.Line>, w: nat, caption: string)
    requires lines != [] && w > 0 && !lines[0].TypeHeader? && !lines[0].TextLine?
    requires CaptionWithin(lines[1..], w - 1, caption)
    ensures CaptionWithin(lines, w, caption)
  {
    var rest := lines[1..];
    if j :| Within(rest, w - 1, j) && rest[j] == Config.TextLine(caption) {
      WithinTail(lines, w, j + 1);
      assert lines[j + 1] == rest[j];
    } else {
      forall j | Within(lines, w, j) ensures !lines[j].TextLine? {
        if j > 0 {
          WithinTail(lines, w, j);
          assert lines[j] == rest[j - 1];
        }
      }
    }
  }

  lemma {:induction false} DetailsStop(a: seq<Config.Line>, b: seq<Config.Line>, w: nat)
    requires b == [] || b[0].TypeHeader?
    ensures Config.Details(a + b, w) == Config.Details(a, w)
    decreases w
  {
    if a == [] {
      assert a + b == b;
    } else if w > 0 && !a[0].TypeHeader? {
      assert (a + b)[1..] == a[1..] + b;
      DetailsStop(a[1..], b, w - 1);
    }
  }

  lemma {:induction false} DescriptorsSplit(a: seq<Config.Line>, b: seq<Config.Line>, next: nat)
    requires b == [] || b[0].TypeHeader?
    ensures Config.DescriptorsFrom(a + b, next) ==
            Config.DescriptorsFrom(a, next) + Config.DescriptorsFrom(b, next + |Config.DescriptorsFrom(a, next)|)
  {
    if a == [] {
      assert a + b == b;
    } else {
      assert (a + b)[1..] == a[1..] + b;
      if a[0].TypeHeader? {
        DescriptorsSplit(a[1..], b, next + 1);
        DetailsStop(a[1..], b, Config.LOOKAHEAD);
      } else {
        DescriptorsSplit(a[1..], b, next);
      }
    }
  }

  // Each type header makes one descriptor, at the next position, with its own name and
  // subenclosure, and with what the at most four lines after it say up to the first text line
  // or header: the first count, else none, and the text, else none.
  lemma TypeHeaderReadsAhead(before: seq<Config.Line>, header: Config.Line, after: seq<Config.Line>)
    returns (d: Config.TypeDescriptor)
    requires header.TypeHeader?
    ensures var n := |Config.Descriptors(before)|;
            && Config.Descriptors(before + ([header] + after)) == Config.Descriptors(before) + [d] + Config.DescriptorsFrom(after, n + 1)
            && d.index == n
    ensures d.elementType == header.elementType && d.subenclosure == header.subenclosure
    ensures CountWithin(after, 4, d.count) && CaptionWithin(after, 4, d.caption)
  {
    var n := |Config.Descriptors(before)|;
    d := Config.DescriptorOf(n, header, after);
    assert ([header] + after)[1..] == after;
    DescriptorsSplit(before, [header] + after, 0);
    CountInIsWithin(after, 4);
    CaptionInIsWithin(after, 4);
  }
}
