// The SES writer: page reads, its two per-enclosure caches, the command, the settle poll.
module Locate {
  import opened Options
  import opened SlotMap
  import opened ElementTypes
  import AesPage
  import AesLaws
  import ConfigPage
  import Addressing

  const MAX_SLOT := 1023

  datatype PageRead<L> = ReadFailed | Read(lines: seq<L>)

  // One call's environment: whether the enclosure is attached and has an sg device, and what
  // each page would say if it were read during this call.
  datatype Call = Call(id: string, slot: int, attached: bool, device: bool,
                       config: PageRead<ConfigPage.Line>, aes: PageRead<AesPage.Line>)

  datatype Outcome =
    | Addressed(typeIndex: nat, element: nat)
    | OutOfRange | Detached | NoDevice | ConfigUnreadable | NoBayElements
    | AesUnreadable | NothingAddressable | Ambiguous | Unmapped

  datatype BayType = BayType(index: nat, count: nat)
  datatype Caches = Caches(types: map<string, BayType>, slots: map<string, Mapping>)

  // ------------------------------------------------------------------ meaning of one call

  function TypeOn(page: seq<ConfigPage.Line>): Option<BayType> {
    var descriptors := ConfigPage.Descriptors(page);
    var index := ConfigPage.BayTypeIndex(descriptors);
    if index.Some? && index.value < |descriptors| then Some(BayType(index.value, descriptors[index.value].count)) else None
  }

  ghost function SlotsOn(page: seq<AesPage.Line>, bay: BayType): Mapping {
    SlotMapOf(AesPage.Blocks(page), bay.index, bay.count)
  }

  predicate AnyAddressable(mapping: Mapping) { exists slot :: slot in mapping && mapping[slot].Some? }

  // Resolving the type descriptor leaves a cache entry or an error.
  function AfterType(caches: Caches, call: Call): (Caches, Option<Outcome>) {
    if call.id in caches.types then (caches, None)
    else if !call.device then (caches, Some(NoDevice))
    else if call.config.ReadFailed? then (caches, Some(ConfigUnreadable))
    else if TypeOn(call.config.lines).None? then (caches, Some(NoBayElements))
    else (caches.(types := caches.types[call.id := TypeOn(call.config.lines).value]), None)
  }

  // A page that maps nothing is an error and is not cached.
  ghost function AfterSlots(caches: Caches, call: Call): (Caches, Option<Outcome>)
    requires call.id in caches.types
  {
    if call.id in caches.slots then (caches, None)
    else if call.aes.ReadFailed? then (caches, Some(AesUnreadable))
    else
      var mapping := SlotsOn(call.aes.lines, caches.types[call.id]);
      if AnyAddressable(mapping) then (caches.(slots := caches.slots[call.id := mapping]), None)
      else (caches, Some(NothingAddressable))
  }

  function Look(bay: BayType, mapping: Mapping, slot: int): Outcome {
    if slot < 0 || slot !in mapping then Unmapped
    else if mapping[slot].None? then Ambiguous
    else Addressed(bay.index, mapping[slot].value)
  }

  ghost function Step(caches: Caches, call: Call): (Caches, Outcome) {
    if !(0 <= call.slot <= MAX_SLOT) then (caches, OutOfRange)
    else if !call.attached then (caches, Detached)
    else
      var (typed, typeError) := AfterType(caches, call);
      if typeError.Some? then (typed, typeError.value)
      else
        var (mapped, slotError) := AfterSlots(typed, call);
        if slotError.Some? then (mapped, slotError.value)
        else (mapped, Look(mapped.types[call.id], mapped.slots[call.id], call.slot))
  }

  // ------------------------------------------------------------------ the writer

  datatype Command = Command(id: string, typeIndex: nat, element: nat, on: bool)

  datatype WriteResult =
    | Refused(reason: Outcome)
    | CommandFailed(tried: Command)
    | Observed(sent: Command, state: bool)

  class SesLocateWriter {
    var types: map<string, BayType>
    var slots: map<string, Mapping>

    ghost function State(): Caches
      reads this
    {
      Caches(types, slots)
    }

    constructor ()
      ensures State() == Caches(map[], map[])
    {
      types, slots := map[], map[];
    }

    // _array_type_index and _element_index_for, behind the range check and the lookup of the enclosure.
    method Address(call: Call) returns (outcome: Outcome)
      modifies this
      ensures (State(), outcome) == Step(old(State()), call)
    {
      if !(0 <= call.slot <= MAX_SLOT) {
        return OutOfRange;
      }
      if !call.attached {
        return Detached;
      }
      if call.id !in types {
        if !call.device {
          return NoDevice;
        }
        if call.config.ReadFailed? {
          return ConfigUnreadable;
        }
        var descriptors := ConfigPage.ParseConfiguration(call.config.lines);
        var index := ConfigPage.ArraySlotTypeIndex(descriptors);
        if index.None? {
          return NoBayElements;
        }
        ConfigPage.BayTypeIndexIs(call.config.lines);
        types := types[call.id := BayType(index.value, descriptors[index.value].count)];
      }
      if call.id !in slots {
        if call.aes.ReadFailed? {
          return AesUnreadable;
        }
        var blocks := AesPage.ParseAdditionalElementStatus(call.aes.lines);
        var mapping := BuildSlotMap(blocks, types[call.id].index, types[call.id].count);
        if !AnyAddressable(mapping) {
          return NothingAddressable;
        }
        slots := slots[call.id := mapping];
      }
      var mapping := slots[call.id];
      if call.slot in mapping {
        if mapping[call.slot].None? {
          return Ambiguous;
        }
        return Addressed(types[call.id].index, mapping[call.slot].value);
      }
      return Unmapped;
    }

    // A command goes out only for an addressed element, and only the one it names.
    method Write(call: Call, on: bool, accepted: bool, readings: seq<bool>, deadlinePassed: seq<bool>)
      returns (result: WriteResult)
      requires |readings| == |deadlinePassed| > 0 && deadlinePassed[|deadlinePassed| - 1]
      modifies this
      ensures var (state, outcome) := Step(old(State()), call);
              State() == state
              && match outcome
                 case Addressed(t, e) =>
                   var command := Command(call.id, t, e, on);
                   if !accepted then result == CommandFailed(command)
                   else result.Observed? && result.sent == command
                        && (result.state == on <==> Settles(on, readings, deadlinePassed))
                 case _ => result == Refused(outcome)
    {
      var outcome := Address(call);
      if !outcome.Addressed? {
        return Refused(outcome);
      }
      var command := Command(call.id, outcome.typeIndex, outcome.element, on);
      if !accepted {
        return CommandFailed(command);
      }
      var state := SettlePoll(on, readings, deadlinePassed);
      return Observed(command, state);
    }
  }

  // Some reading shows the requested state, and the deadline had not passed at any check before it.
  ghost predicate Settles(on: bool, readings: seq<bool>, deadlinePassed: seq<bool>)
    requires |readings| == |deadlinePassed|
  {
    exists k :: 0 <= k < |readings| && readings[k] == on && forall j :: 0 <= j < k ==> !deadlinePassed[j]
  }

  // readings[k] is the attribute at the k-th read; deadlinePassed[k] the clock check after it.
  method SettlePoll(on: bool, readings: seq<bool>, deadlinePassed: seq<bool>) returns (observed: bool)
    requires |readings| == |deadlinePassed| > 0 && deadlinePassed[|deadlinePassed| - 1]
    ensures observed == on <==> Settles(on, readings, deadlinePassed)
  {
    var k := 0;
    observed := readings[0];
    while observed != on && !deadlinePassed[k]
      invariant k < |readings| && observed == readings[k]
      invariant forall j :: 0 <= j < k ==> readings[j] != on && !deadlinePassed[j]
      decreases |readings| - k
    {
      k := k + 1;
      observed := readings[k];
    }
  }

  // ------------------------------------------------------------------ whole runs

  ghost function StateAfter(calls: seq<Call>, n: nat): Caches
    requires n <= |calls|
  {
    if n == 0 then Caches(map[], map[]) else Step(StateAfter(calls, n - 1), calls[n - 1]).0
  }

  ghost function OutcomeAt(calls: seq<Call>, k: nat): Outcome
    requires k < |calls|
  {
    Step(StateAfter(calls, k), calls[k]).1
  }

  // What one call may do to the caches: keep entries, and add one of its own from a page it read.
  lemma StepFillsFromPages(caches: Caches, call: Call, id: string)
    ensures var after := Step(caches, call).0;
            && (id in caches.types ==> id in after.types && after.types[id] == caches.types[id])
            && (id in caches.slots ==> id in after.slots && after.slots[id] == caches.slots[id])
            && (id !in caches.types && id in after.types ==>
                  call.id == id && call.config.Read? && TypeOn(call.config.lines) == Some(after.types[id]))
            && (id !in caches.slots && id in after.slots ==>
                  && call.id == id && call.aes.Read? && id in after.types
                  && after.slots[id] == SlotsOn(call.aes.lines, after.types[id])
                  && AnyAddressable(after.slots[id]))
  {
    var (typed, typeError) := AfterType(caches, call);
    if 0 <= call.slot <= MAX_SLOT && typeError.None? {
      assert call.id in typed.types;
    }
  }

  // Call i read the configuration page that the cached type comes from.
  ghost predicate TypeFrom(calls: seq<Call>, i: int, n: nat, id: string, bay: BayType) {
    0 <= i < n <= |calls| && calls[i].id == id && calls[i].config.Read? && TypeOn(calls[i].config.lines) == Some(bay)
  }

  ghost predicate Holds(caches: Caches, id: string, bay: BayType, mapping: Mapping) {
    id in caches.types && caches.types[id] == bay && id in caches.slots && caches.slots[id] == mapping
  }

  // Call j is the one that read the status page and filled the enclosure's map, under this type.
  ghost predicate SlotsFrom(calls: seq<Call>, j: int, n: nat, id: string, bay: BayType, mapping: Mapping) {
    && 0 <= j < n <= |calls| && calls[j].id == id && calls[j].aes.Read?
    && id !in StateAfter(calls, j).slots && Holds(StateAfter(calls, j + 1), id, bay, mapping)
    && SlotsOn(calls[j].aes.lines, bay) == mapping
  }

  lemma {:induction false} TypesComeFromPages(calls: seq<Call>, n: nat, id: string)
    requires n <= |calls|
    ensures var c := StateAfter(calls, n); id in c.types ==> exists i :: TypeFrom(calls, i, n, id, c.types[id])
  {
    if n > 0 {
      TypesComeFromPages(calls, n - 1, id);
      var before, after := StateAfter(calls, n - 1), StateAfter(calls, n);
      StepFillsFromPages(before, calls[n - 1], id);
      if id in before.types {
        var i :| TypeFrom(calls, i, n - 1, id, before.types[id]);
        assert TypeFrom(calls, i, n, id, before.types[id]);
      } else if id in after.types {
        assert TypeFrom(calls, n - 1, n, id, after.types[id]);
      }
    }
  }

  lemma {:induction false} SlotsComeFromPages(calls: seq<Call>, n: nat, id: string)
    requires n <= |calls|
    ensures var c := StateAfter(calls, n);
            id in c.slots ==> id in c.types && exists j :: SlotsFrom(calls, j, n, id, c.types[id], c.slots[id])
  {
    if n > 0 {
      SlotsComeFromPages(calls, n - 1, id);
      var before, after := StateAfter(calls, n - 1), StateAfter(calls, n);
      StepFillsFromPages(before, calls[n - 1], id);
      if id in before.slots {
        var j :| SlotsFrom(calls, j, n - 1, id, before.types[id], before.slots[id]);
        assert SlotsFrom(calls, j, n, id, before.types[id], before.slots[id]);
      } else if id in after.slots {
        assert SlotsFrom(calls, n - 1, n, id, after.types[id], after.slots[id]);
      }
    }
  }

  // ------------------------------------------------------------------ the right bay

  // `truth[p]` is the element that the descriptor printed at position p of the chosen block
  // truly describes. The page does not show it. This is how far the page may be trusted: the
  // descriptors are of real elements, and in element order or all numbered from one zero point.
  ghost predicate PrintedInOrder(page: seq<AesPage.Line>, bay: BayType, truth: seq<nat>) {
    var blocks := AesPage.Blocks(page);
    forall b :: Chosen(blocks, bay.index, b) ==>
      && Addressing.Describes(truth, blocks[b].entries, bay.count)
      && (Addressing.Increasing(truth) || exists zero :: Addressing.IndexesFrom(zero, truth, blocks[b].entries))
  }

  // truths[j] is the truth about the page printed at call j. Only a page that passed the checks
  // and filled the enclosure's map matters, under the type then in use.
  ghost predicate TruthfulRun(calls: seq<Call>, truths: seq<seq<nat>>, n: nat, id: string)
    requires |truths| == |calls|
  {
    forall j, bay, mapping :: SlotsFrom(calls, j, n, id, bay, mapping) ==>
      PrintedInOrder(calls[j].aes.lines, bay, truths[j])
  }

  // On this page the descriptor at the element's position truly is that element's, names the
  // slot, and is the only one that does.
  ghost predicate IsTheBay(page: seq<AesPage.Line>, bay: BayType, truth: seq<nat>, slot: int, element: nat) {
    && slot >= 0
    && element < |truth| && truth[element] == element
    && exists b :: Chosen(AesPage.Blocks(page), bay.index, b) && SoleClaim(AesPage.Blocks(page), slot, b, element)
  }

  lemma PageInOrderNamesTheBay(page: seq<AesPage.Line>, bay: BayType, truth: seq<nat>, slot: nat, element: nat)
    requires slot in SlotsOn(page, bay) && SlotsOn(page, bay)[slot] == Some(element)
    requires PrintedInOrder(page, bay, truth)
    ensures IsTheBay(page, bay, truth, slot, element)
  {
    var blocks := AesPage.Blocks(page);
    AddressableIff(blocks, bay.index, bay.count, slot, element);
    var b :| Trusted(blocks, bay.index, bay.count, b) && SoleClaim(blocks, slot, b, element);
    assert Chosen(blocks, bay.index, b);
    Addressing.WrongBayIsNeverAddressed(blocks, bay.index, bay.count, slot, element, b, truth);
  }

  // An answer read off a cached map.
  predicate FromMap(outcome: Outcome) { outcome.Addressed? || outcome.Ambiguous? || outcome.Unmapped? }

  lemma AnswerIsLookedUp(calls: seq<Call>, k: nat)
    requires k < |calls| && FromMap(OutcomeAt(calls, k))
    ensures var c, call := StateAfter(calls, k + 1), calls[k];
            && 0 <= call.slot <= MAX_SLOT && call.id in c.types && call.id in c.slots
            && OutcomeAt(calls, k) == Look(c.types[call.id], c.slots[call.id], call.slot)
  {
  }

  // Over any run of calls on any enclosures, caches included, and whatever the truth about the
  // pages is: an element the writer addresses is truly the bay that was asked for, on the page
  // this enclosure printed when its map was filled, if that page was printed in order.
  lemma NoRunAddressesTheWrongBay(calls: seq<Call>, truths: seq<seq<nat>>, k: nat)
    requires |truths| == |calls| && k < |calls| && OutcomeAt(calls, k).Addressed?
    requires TruthfulRun(calls, truths, k + 1, calls[k].id)
    ensures var c, id := StateAfter(calls, k + 1), calls[k].id;
            && id in c.types && id in c.slots
            && exists j :: SlotsFrom(calls, j, k + 1, id, c.types[id], c.slots[id])
                           && IsTheBay(calls[j].aes.lines, c.types[id], truths[j], calls[k].slot, OutcomeAt(calls, k).element)
  {
    var id, slot, element := calls[k].id, calls[k].slot, OutcomeAt(calls, k).element;
    AnswerIsLookedUp(calls, k);
    SlotsComeFromPages(calls, k + 1, id);
    var c := StateAfter(calls, k + 1);
    var bay, mapping := c.types[id], c.slots[id];
    var j :| SlotsFrom(calls, j, k + 1, id, bay, mapping);
    PageInOrderNamesTheBay(calls[j].aes.lines, bay, truths[j], slot, element);
  }

  // The page that filled the map for this address, its chosen block, and how far that page
  // alone vouches for the entry at the element's position.
  ghost predicate VouchedExactly(calls: seq<Call>, j: int, b: int, k: nat, bay: BayType, mapping: Mapping, element: nat)
    requires k < |calls|
  {
    var slot := calls[k].slot;
    && slot >= 0 && SlotsFrom(calls, j, k + 1, calls[k].id, bay, mapping)
    && var blocks := AesPage.Blocks(calls[j].aes.lines);
       && Chosen(blocks, bay.index, b) && SoleClaim(blocks, slot, b, element) && element < |blocks[b].entries|
       && (Addressing.ProvedAt(blocks[b].entries, element) <==> Addressing.Pinned(blocks[b].entries, element))
  }

  // Without trusting the print order: over any run, an address is right for every truth that
  // the page it came from allows exactly when the indexes that page prints pin its entry.
  lemma RunAddressIsProvedIff(calls: seq<Call>, k: nat)
    requires k < |calls| && OutcomeAt(calls, k).Addressed?
    ensures var c, id := StateAfter(calls, k + 1), calls[k].id;
            && id in c.types && id in c.slots
            && exists j, b :: VouchedExactly(calls, j, b, k, c.types[id], c.slots[id], OutcomeAt(calls, k).element)
  {
    var id, slot, element := calls[k].id, calls[k].slot, OutcomeAt(calls, k).element;
    AnswerIsLookedUp(calls, k);
    SlotsComeFromPages(calls, k + 1, id);
    var c := StateAfter(calls, k + 1);
    var bay, mapping := c.types[id], c.slots[id];
    var j :| SlotsFrom(calls, j, k + 1, id, bay, mapping);
    var blocks := AesPage.Blocks(calls[j].aes.lines);
    AddressableIff(blocks, bay.index, bay.count, slot, element);
    var b :| Trusted(blocks, bay.index, bay.count, b) && SoleClaim(blocks, slot, b, element);
    Addressing.AddressIsProvedIff(blocks, bay.index, bay.count, slot, element, b);
    assert VouchedExactly(calls, j, b, k, bay, mapping, element);
  }

  // A shelf of two bays whose unindexed descriptors are printed out of order.
  lemma MisprintedShelf() returns (config: seq<ConfigPage.Line>, aes: seq<AesPage.Line>)
    ensures TypeOn(config) == Some(BayType(0, 2))
    ensures 5 in SlotsOn(aes, BayType(0, 2)) && SlotsOn(aes, BayType(0, 2))[5] == Some(0)
    ensures !PrintedInOrder(aes, BayType(0, 2), [1, 0])
  {
    var descriptors := [ConfigPage.TypeDescriptor(0, 0, ARRAY_DEVICE_SLOT, "", 2)];
    config := ConfigPage.Print(descriptors);
    ConfigPage.ParseInvertsPrint(descriptors, 0);
    var entries := [AesPage.Entry(None, None, Some(5), None), AesPage.Entry(None, None, Some(6), None)];
    var blocks := [AesPage.Block(ARRAY_DEVICE_SLOT, 0, 0, entries, false)];
    aes := AesLaws.PrintPage(blocks);
    AesLaws.ParseInvertsPrint(blocks);
    Addressing.UnindexedPermutationIsInvisible();
    assert Chosen(blocks, 0, 0) && entries[0].index.None?;
    var truth: seq<nat> := [1, 0];
    assert truth[0] > truth[1];
  }

  // The hypothesis is about the world and can fail: such a shelf passes every check, and its
  // first call lights the other bay.
  lemma MisprintedPageLightsTheWrongBay() returns (calls: seq<Call>, truths: seq<seq<nat>>)
    ensures |calls| == |truths| == 1 && calls[0].slot == 5
    ensures OutcomeAt(calls, 0) == Addressed(0, 0) && truths[0] == [1, 0]
    ensures !TruthfulRun(calls, truths, 1, calls[0].id)
  {
    var config, aes := MisprintedShelf();
    calls, truths := [Call("shelf", 5, true, true, Read(config), Read(aes))], [[1, 0]];
    var bay := BayType(0, 2);
    var mapping := SlotsOn(aes, bay);
    assert mapping[5].Some?;
    assert StateAfter(calls, 1) == Step(StateAfter(calls, 0), calls[0]).0;
    assert SlotsFrom(calls, 0, 1, "shelf", bay, mapping);
  }

  // Once a map is cached, every slot's answer is fixed for ever, whenever the enclosure is
  // attached: addressed, refused or unmapped.
  lemma {:induction false} AnswersAreStable(calls: seq<Call>, k: nat, l: nat)
    requires k < l < |calls| && FromMap(OutcomeAt(calls, k))
    requires calls[l].id == calls[k].id && calls[l].slot == calls[k].slot
    ensures OutcomeAt(calls, l) == if calls[l].attached then OutcomeAt(calls, k) else Detached
  {
    AnswerIsLookedUp(calls, k);
    CachesPersist(calls, k + 1, l, calls[k].id);
  }

  lemma {:induction false} CachesPersist(calls: seq<Call>, m: nat, n: nat, id: string)
    requires m <= n <= |calls| && id in StateAfter(calls, m).types && id in StateAfter(calls, m).slots
    ensures id in StateAfter(calls, n).types && StateAfter(calls, n).types[id] == StateAfter(calls, m).types[id]
    ensures id in StateAfter(calls, n).slots && StateAfter(calls, n).slots[id] == StateAfter(calls, m).slots[id]
    decreases n
  {
    if m < n {
      CachesPersist(calls, m, n - 1, id);
      StepFillsFromPages(StateAfter(calls, n - 1), calls[n - 1], id);
    }
  }

  // A page that maps nothing cannot pin later calls to refusal: the next readable page is read.
  lemma {:induction false} UselessPageIsNotCached(calls: seq<Call>, n: nat, id: string)
    requires n <= |calls| && id in StateAfter(calls, n).slots
    ensures AnyAddressable(StateAfter(calls, n).slots[id])
  {
    if n > 0 {
      StepFillsFromPages(StateAfter(calls, n - 1), calls[n - 1], id);
      if id in StateAfter(calls, n - 1).slots {
        UselessPageIsNotCached(calls, n - 1, id);
      }
    }
  }
}
