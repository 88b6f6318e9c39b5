// The configuration page (`sg_ses -p cf`): the ordered type descriptor list, whose
// positions are the type indexes every other page and command uses.
module ConfigPage {
  import opened Options
  import opened ElementTypes

  datatype Line =
    | TypeHeader(elementType: string, subenclosure: nat)
    | CountLine(count: nat)
    | TextLine(caption: string)
    | OtherLine

  datatype TypeDescriptor = TypeDescriptor(index: nat, subenclosure: nat, elementType: string, caption: string, count: nat)

  // How far the parser looks past a type header.
  const LOOKAHEAD := 4

  // ------------------------------------------------------------------ meaning of a page

  // The lines that can speak about a descriptor: a short window, cut at the next type header.
  function Details(lines: seq<Line>, window: nat): seq<Line> {
    if window == 0 || lines == [] || lines[0].TypeHeader? then [] else [lines[0]] + Details(lines[1..], window - 1)
  }

  function UpToHeader(lines: seq<Line>): seq<Line> {
    if lines == [] || lines[0].TypeHeader? then [] else [lines[0]] + UpToHeader(lines[1..])
  }

  function CaptionIn(details: seq<Line>): string {
    if details == [] then ""
    else if details[0].TextLine? then details[0].caption
    else CaptionIn(details[1..])
  }

  // The first count, unless the text line came before it.
  function CountIn(details: seq<Line>): nat {
    if details == [] || details[0].TextLine? then 0
    else if details[0].CountLine? then details[0].count
    else CountIn(details[1..])
  }

  function DescriptorOf(index: nat, header: Line, following: seq<Line>): TypeDescriptor
    requires header.TypeHeader?
  {
    var details := Details(following, LOOKAHEAD);
    TypeDescriptor(index, header.subenclosure, header.elementType, CaptionIn(details), CountIn(details))
  }

  function DescriptorsFrom(page: seq<Line>, next: nat): seq<TypeDescriptor> {
    if page == [] then []
    else if page[0].TypeHeader? then [DescriptorOf(next, page[0], page[1..])] + DescriptorsFrom(page[1..], next + 1)
    else DescriptorsFrom(page[1..], next)
  }

  function Descriptors(page: seq<Line>): seq<TypeDescriptor> { DescriptorsFrom(page, 0) }

  // ------------------------------------------------------------------ the parser

  method ReadDetails(lines: seq<Line>) returns (caption: string, count: nat)
    ensures caption == CaptionIn(Details(lines, LOOKAHEAD)) && count == CountIn(Details(lines, LOOKAHEAD))
  {
    caption, count := "", 0;
    var seenCount := false;
    var i := 0;
    while i < |lines| && i < LOOKAHEAD && !lines[i].TypeHeader?
      invariant i <= |lines| && i <= LOOKAHEAD && caption == ""
      invariant CaptionIn(Details(lines, LOOKAHEAD)) == CaptionIn(Details(lines[i..], LOOKAHEAD - i))
      invariant CountIn(Details(lines, LOOKAHEAD)) ==
                if seenCount then count else CountIn(Details(lines[i..], LOOKAHEAD - i))
      invariant !seenCount ==> count == 0
    {
      assert lines[i..][1..] == lines[i + 1..];
      if lines[i].CountLine? && !seenCount {
        count, seenCount := lines[i].count, true;
      }
      if lines[i].TextLine? {
        caption := lines[i].caption;
        return;
      }
      i := i + 1;
    }
  }

  method ParseConfiguration(page: seq<Line>) returns (descriptors: seq<TypeDescriptor>)
    ensures descriptors == Descriptors(page)
  {
    descriptors := [];
    for i := 0 to |page|
      invariant Descriptors(page) == descriptors + DescriptorsFrom(page[i..], |descriptors|)
    {
      assert page[i..][1..] == page[i + 1..];
      if page[i].TypeHeader? {
        var caption, count := ReadDetails(page[i + 1..]);
        descriptors := descriptors
          + [TypeDescriptor(|descriptors|, page[i].subenclosure, page[i].elementType, caption, count)];
      }
    }
  }

  predicate BayDescriptor(d: TypeDescriptor, elementType: string) { d.count > 0 && d.elementType == elementType }

  // Array device slots win over device slots; among equals the first does.
  method ArraySlotTypeIndex(descriptors: seq<TypeDescriptor>) returns (index: Option<nat>)
    ensures index == BayTypeIndex(descriptors)
  {
    var fallback: Option<nat> := None;
    for i := 0 to |descriptors|
      invariant forall j :: 0 <= j < i ==> !BayDescriptor(descriptors[j], ARRAY_DEVICE_SLOT)
      invariant FirstBay(descriptors, ARRAY_DEVICE_SLOT) == FirstBay(descriptors[i..], ARRAY_DEVICE_SLOT)
      invariant FirstBay(descriptors, DEVICE_SLOT) ==
                if fallback.Some? then fallback else FirstBay(descriptors[i..], DEVICE_SLOT)
    {
      var d := descriptors[i];
      assert descriptors[i..][1..] == descriptors[i + 1..];
      if d.count > 0 {
        if d.elementType == ARRAY_DEVICE_SLOT {
          return Some(d.index);
        }
        if d.elementType == DEVICE_SLOT && fallback.None? {
          fallback := Some(d.index);
        }
      }
    }
    return fallback;
  }

  // The index of the first populated descriptor of a type.
  function FirstBay(descriptors: seq<TypeDescriptor>, elementType: string): Option<nat> {
    if descriptors == [] then None
    else if BayDescriptor(descriptors[0], elementType) then Some(descriptors[0].index)
    else FirstBay(descriptors[1..], elementType)
  }

  function BayTypeIndex(descriptors: seq<TypeDescriptor>): Option<nat> {
    var modern := FirstBay(descriptors, ARRAY_DEVICE_SLOT);
    if modern.Some? then modern else FirstBay(descriptors, DEVICE_SLOT)
  }

  // ------------------------------------------------------------------ laws

  lemma {:induction false} IndexIsPosition(page: seq<Line>, next: nat)
    ensures forall k :: 0 <= k < |DescriptorsFrom(page, next)| ==> DescriptorsFrom(page, next)[k].index == next + k
  {
    if page != [] {
      IndexIsPosition(page[1..], next + 1);
      IndexIsPosition(page[1..], next);
    }
  }

  // A descriptor never borrows the count or caption of a later one.
  lemma {:induction false} DetailsStopAtHeader(lines: seq<Line>, window: nat)
    ensures Details(lines, window) == Details(UpToHeader(lines), window)
  {
    if window > 0 && lines != [] && !lines[0].TypeHeader? {
      DetailsStopAtHeader(lines[1..], window - 1);
    }
  }

  lemma DescriptorsDoNotBorrow(index: nat, header: Line, following: seq<Line>)
    requires header.TypeHeader?
    ensures DescriptorOf(index, header, following) == DescriptorOf(index, header, UpToHeader(following))
  {
    DetailsStopAtHeader(following, LOOKAHEAD);
  }

  function PrintDescriptor(d: TypeDescriptor): seq<Line> {
    var header, count := TypeHeader(d.elementType, d.subenclosure), CountLine(d.count);
    if d.caption == "" then [header, count] else [header, count, TextLine(d.caption)]
  }

  function Print(descriptors: seq<TypeDescriptor>): seq<Line> {
    if descriptors == [] then [] else PrintDescriptor(descriptors[0]) + Print(descriptors[1..])
  }

  lemma SkipsOther(page: seq<Line>, next: nat)
    requires page != [] && !page[0].TypeHeader?
    ensures DescriptorsFrom(page, next) == DescriptorsFrom(page[1..], next)
  {
  }

  lemma TakesHeader(page: seq<Line>, next: nat)
    requires page != [] && page[0].TypeHeader?
    ensures DescriptorsFrom(page, next) == [DescriptorOf(next, page[0], page[1..])] + DescriptorsFrom(page[1..], next + 1)
  {
  }

  lemma DetailsReadBack(count: nat, caption: string)
    ensures CountIn([CountLine(count)]) == count && CaptionIn([CountLine(count)]) == ""
    ensures CountIn([CountLine(count), TextLine(caption)]) == count
    ensures CaptionIn([CountLine(count), TextLine(caption)]) == caption
  {
    assert [CountLine(count), TextLine(caption)][1..] == [TextLine(caption)];
  }

  lemma PrintedDetails(d: TypeDescriptor, tail: seq<Line>)
    requires tail == [] || tail[0].TypeHeader?
    ensures Details((PrintDescriptor(d) + tail)[1..], LOOKAHEAD) == PrintDescriptor(d)[1..]
  {
    var following := (PrintDescriptor(d) + tail)[1..];
    if d.caption == "" {
      assert following[1..] == tail;
    } else {
      var text := following[1..];
      assert text[0] == TextLine(d.caption) && text[1..] == tail;
      assert Details(text, 3) == [TextLine(d.caption)];
    }
  }

  lemma PrintedHeaderReadsBack(d: TypeDescriptor, tail: seq<Line>)
    requires tail == [] || tail[0].TypeHeader?
    ensures var page := PrintDescriptor(d) + tail;
            page[0].TypeHeader? && DescriptorOf(d.index, page[0], page[1..]) == d
  {
    PrintedDetails(d, tail);
    DetailsReadBack(d.count, d.caption);
    assert PrintDescriptor(d)[1..] == if d.caption == "" then [CountLine(d.count)] else [CountLine(d.count), TextLine(d.caption)];
  }

  // The lines after a printed header are passed over, up to the next descriptor.
  lemma PrintedDetailsAreSkipped(d: TypeDescriptor, tail: seq<Line>, next: nat)
    ensures DescriptorsFrom((PrintDescriptor(d) + tail)[1..], next) == DescriptorsFrom(tail, next)
  {
    var following := (PrintDescriptor(d) + tail)[1..];
    SkipsOther(following, next);
    if d.caption == "" {
      assert following[1..] == tail;
    } else {
      SkipsOther(following[1..], next);
      assert following[1..][1..] == tail;
    }
  }

  lemma PrintedDescriptorParses(d: TypeDescriptor, tail: seq<Line>)
    requires tail == [] || tail[0].TypeHeader?
    ensures DescriptorsFrom(PrintDescriptor(d) + tail, d.index) == [d] + DescriptorsFrom(tail, d.index + 1)
  {
    PrintedHeaderReadsBack(d, tail);
    TakesHeader(PrintDescriptor(d) + tail, d.index);
    PrintedDetailsAreSkipped(d, tail, d.index + 1);
  }

  // Any descriptor list, with or without text lines, survives printing and parsing.
  lemma {:induction false} ParseInvertsPrint(descriptors: seq<TypeDescriptor>, next: nat)
    requires forall k :: 0 <= k < |descriptors| ==> descriptors[k].index == next + k
    ensures DescriptorsFrom(Print(descriptors), next) == descriptors
  {
    if descriptors != [] {
      forall k | 0 <= k < |descriptors[1..]| ensures descriptors[1..][k].index == next + 1 + k {
        assert descriptors[1..][k] == descriptors[k + 1];
      }
      ParseInvertsPrint(descriptors[1..], next + 1);
      PrintedDescriptorParses(descriptors[0], Print(descriptors[1..]));
    }
  }

  lemma {:induction false} FirstBayIs(descriptors: seq<TypeDescriptor>, elementType: string, next: nat)
    requires forall k :: 0 <= k < |descriptors| ==> descriptors[k].index == next + k
    ensures match FirstBay(descriptors, elementType)
            case None => forall k :: 0 <= k < |descriptors| ==> !BayDescriptor(descriptors[k], elementType)
            case Some(i) =>
              && next <= i < next + |descriptors| && BayDescriptor(descriptors[i - next], elementType)
              && forall k :: 0 <= k < i - next ==> !BayDescriptor(descriptors[k], elementType)
  {
    if descriptors != [] {
      forall k | 0 <= k < |descriptors[1..]| ensures descriptors[1..][k].index == next + 1 + k {
        assert descriptors[1..][k] == descriptors[k + 1];
      }
      FirstBayIs(descriptors[1..], elementType, next + 1);
    }
  }

  // The type index used to address bays is a position in the page's own list, and names the
  // first populated array-slot descriptor, or the first populated device-slot one failing that.
  // Its count is the one the slot map is checked against.
  lemma BayTypeIndexIs(page: seq<Line>)
    ensures var ds := Descriptors(page);
            match BayTypeIndex(ds)
            case None => forall k :: 0 <= k < |ds| ==> !BayDescriptor(ds[k], ARRAY_DEVICE_SLOT) && !BayDescriptor(ds[k], DEVICE_SLOT)
            case Some(i) =>
              && i < |ds| && ds[i].index == i && ds[i].count > 0
              && if exists k :: 0 <= k < |ds| && BayDescriptor(ds[k], ARRAY_DEVICE_SLOT)
                 then ds[i].elementType == ARRAY_DEVICE_SLOT && forall k :: 0 <= k < i ==> !BayDescriptor(ds[k], ARRAY_DEVICE_SLOT)
                 else ds[i].elementType == DEVICE_SLOT && forall k :: 0 <= k < i ==> !BayDescriptor(ds[k], DEVICE_SLOT)
  {
    IndexIsPosition(page, 0);
    FirstBayIs(Descriptors(page), ARRAY_DEVICE_SLOT, 0);
    FirstBayIs(Descriptors(page), DEVICE_SLOT, 0);
  }
}
