// What a call for an LED is answered, said on the two pages themselves: which printed
// descriptor holds the bays, and which printed entry speaks for a slot.
module LocateLaws {
  import opened Options
  import opened SlotMap
  import opened Locate
  import AesPage
  import ConfigPage
  import SasMap

  // ------------------------------------------------------------------ the descriptor of the bays

  predicate Populated(d: ConfigPage.TypeDescriptor, name: string) { d.count > 0 && d.elementType == name }

  ghost predicate FirstPopulated(ds: seq<ConfigPage.TypeDescriptor>, name: string, index: nat) {
    && index < |ds| && Populated(ds[index], name)
    && forall k :: 0 <= k < index ==> !Populated(ds[k], name)
  }

  ghost predicate AnyPopulated(ds: seq<ConfigPage.TypeDescriptor>, name: string) {
    exists k :: 0 <= k < |ds| && Populated(ds[k], name)
  }

  // The printed descriptor at this position holds the bays, and this is its printed count:
  // the first populated array device slots, or failing any the first populated device slots.
  ghost predicate HoldsTheBays(ds: seq<ConfigPage.TypeDescriptor>, index: nat, count: int) {
    && FirstPopulated(ds, if AnyPopulated(ds, "Array device slot") then "Array device slot" else "Device slot", index)
    && ds[index].count == count
  }

  lemma OneHoldsTheBays(ds: seq<ConfigPage.TypeDescriptor>, i: nat, c: int, j: nat, d: int)
    requires HoldsTheBays(ds, i, c) && HoldsTheBays(ds, j, d)
    ensures i == j && c == d
  {
  }

  lemma TypeOnIs(page: seq<ConfigPage.Line>)
    ensures match TypeOn(page)
            case Some(bay) => HoldsTheBays(ConfigPage.Descriptors(page), bay.index, bay.count)
            case None => !AnyPopulated(ConfigPage.Descriptors(page), "Array device slot")
                         && !AnyPopulated(ConfigPage.Descriptors(page), "Device slot")
  {
    var ds := ConfigPage.Descriptors(page);
    ConfigPage.BayTypeIndexIs(page);
    forall k | 0 <= k < |ds|
      ensures ConfigPage.BayDescriptor(ds[k], "Array device slot") == Populated(ds[k], "Array device slot")
      ensures ConfigPage.BayDescriptor(ds[k], "Device slot") == Populated(ds[k], "Device slot")
    {
    }
  }

  // Over any run, what is cached for an enclosure was printed by that enclosure: the index is
  // the position of the descriptor that holds the bays, and the count is that descriptor's.
  lemma CachedTypeIsPrinted(calls: seq<Call>, n: nat, id: string)
    requires n <= |calls| && id in StateAfter(calls, n).types
    ensures exists i :: 0 <= i < n && calls[i].id == id && calls[i].config.Read?
                        && HoldsTheBays(ConfigPage.Descriptors(calls[i].config.lines),
                                        StateAfter(calls, n).types[id].index, StateAfter(calls, n).types[id].count)
  {
    TypesComeFromPages(calls, n, id);
    var i :| TypeFrom(calls, i, n, id, StateAfter(calls, n).types[id]);
    TypeOnIs(calls[i].config.lines);
  }

  // ------------------------------------------------------------------ the entry that speaks for a slot

  predicate NamedBay(block: AesPage.Block) { block.elementType == "Array device slot" || block.elementType == "Device slot" }

  predicate Prints(blocks: seq<AesPage.Block>, slot: nat, b: int, p: int) {
    0 <= b < |blocks| && 0 <= p < |blocks[b].entries| && blocks[b].entries[p].slot == Some(slot)
  }

  // No expander, controller or port entry prints a slot number.
  ghost predicate OnlyBaysPrintSlots(blocks: seq<AesPage.Block>) {
    forall slot, b, p :: Prints(blocks, slot, b, p) ==> NamedBay(blocks[b])
  }

  ghost predicate FirstBayBlock(blocks: seq<AesPage.Block>, index: nat, b: int) {
    && 0 <= b < |blocks| && NamedBay(blocks[b]) && blocks[b].typeIndex == index
    && forall c :: 0 <= c < b && NamedBay(blocks[c]) ==> blocks[c].typeIndex != index
  }

  // As many entries as elements, none unknown, and every printed index as far from its
  // position as every other.
  ghost predicate Regular(block: AesPage.Block, count: int) {
    && |block.entries| == count && !block.malformed
    && forall u, v :: 0 <= u < |block.entries| && 0 <= v < |block.entries|
                      && block.entries[u].index.Some? && block.entries[v].index.Some?
                      ==> block.entries[u].index.value - u == block.entries[v].index.value - v
  }

  ghost predicate PrintedOnce(blocks: seq<AesPage.Block>, slot: nat, b: int, p: int) {
    Prints(blocks, slot, b, p) && forall c, q :: Prints(blocks, slot, c, q) ==> c == b && q == p
  }

  // Entry p of the page's block for this type speaks for the slot, and nothing contradicts it.
  ghost predicate Speaks(blocks: seq<AesPage.Block>, index: nat, count: int, slot: nat, p: nat) {
    && OnlyBaysPrintSlots(blocks)
    && exists b :: FirstBayBlock(blocks, index, b) && Regular(blocks[b], count) && PrintedOnce(blocks, slot, b, p)
  }

  lemma MisattributedIs(blocks: seq<AesPage.Block>)
    ensures Misattributed(blocks) <==> !OnlyBaysPrintSlots(blocks)
  {
    if Misattributed(blocks) {
      var b :| 0 <= b < |blocks| && !IsBay(blocks[b]) && CarriesSlot(blocks[b].entries);
      var p :| 0 <= p < |blocks[b].entries| && blocks[b].entries[p].slot.Some?;
      assert Prints(blocks, blocks[b].entries[p].slot.value, b, p);
    }
    if !OnlyBaysPrintSlots(blocks) {
      var slot, b, p :| Prints(blocks, slot, b, p) && !NamedBay(blocks[b]);
      assert CarriesSlot(blocks[b].entries);
    }
  }

  lemma SoundIs(block: AesPage.Block, count: int)
    ensures Sound(block, count) <==> Regular(block, count)
  {
    var es := block.entries;
    if Sound(block, count) {
      forall u, v | 0 <= u < |es| && 0 <= v < |es| && es[u].index.Some? && es[v].index.Some?
        ensures es[u].index.value - u == es[v].index.value - v
      {
        assert Indexed(es, u) && Indexed(es, v) && OffsetAt(es, u) == OffsetAt(es, v);
      }
    }
    if Regular(block, count) {
      forall u, v | Indexed(es, u) && Indexed(es, v) ensures OffsetAt(es, u) == OffsetAt(es, v) {
      }
    }
  }

  lemma SoleClaimIs(blocks: seq<AesPage.Block>, slot: nat, b: int, p: int)
    requires OnlyBaysPrintSlots(blocks)
    ensures SoleClaim(blocks, slot, b, p) <==> PrintedOnce(blocks, slot, b, p)
  {
    assert forall c, q :: ClaimedAt(blocks, slot, c, q) <==> Prints(blocks, slot, c, q);
  }

  lemma ChosenIs(blocks: seq<AesPage.Block>, index: nat, b: int)
    ensures Chosen(blocks, index, b) <==> FirstBayBlock(blocks, index, b)
  {
  }

  // The map sends a slot to an element exactly when that entry speaks for it.
  lemma MapSpeaks(blocks: seq<AesPage.Block>, index: nat, count: int, slot: nat, p: nat)
    ensures (var m := SlotMapOf(blocks, index, count); slot in m && m[slot] == Some(p)) <==> Speaks(blocks, index, count, slot, p)
  {
    AddressableIff(blocks, index, count, slot, p);
    MisattributedIs(blocks);
    if OnlyBaysPrintSlots(blocks) {
      forall b ensures SoleClaim(blocks, slot, b, p) <==> PrintedOnce(blocks, slot, b, p) {
        SoleClaimIs(blocks, slot, b, p);
      }
      forall b ensures Trusted(blocks, index, count, b) <==> FirstBayBlock(blocks, index, b) && Regular(blocks[b], count) {
        ChosenIs(blocks, index, b);
        if 0 <= b < |blocks| {
          SoundIs(blocks[b], count);
        }
      }
    }
  }

  // Two entries print it, or one does in a block of the bays' type that cannot speak for it.
  ghost predicate Doubtful(blocks: seq<AesPage.Block>, index: nat, count: int, slot: nat) {
    && OnlyBaysPrintSlots(blocks)
    && (|| (exists b, p, c, q :: Prints(blocks, slot, b, p) && Prints(blocks, slot, c, q) && (b != c || p != q))
        || (exists b, p :: PrintedOnce(blocks, slot, b, p) && blocks[b].typeIndex == index
                           && !(FirstBayBlock(blocks, index, b) && Regular(blocks[b], count))))
  }

  lemma MapDoubts(blocks: seq<AesPage.Block>, index: nat, count: int, slot: nat)
    ensures (var m := SlotMapOf(blocks, index, count); slot in m && m[slot] == None) <==> Doubtful(blocks, index, count, slot)
  {
    RefusedIff(blocks, index, count, slot);
    MisattributedIs(blocks);
    if OnlyBaysPrintSlots(blocks) {
      assert forall c, q :: ClaimedAt(blocks, slot, c, q) <==> Prints(blocks, slot, c, q);
      forall b, p ensures SoleClaim(blocks, slot, b, p) <==> PrintedOnce(blocks, slot, b, p) {
        SoleClaimIs(blocks, slot, b, p);
      }
      forall b ensures Trusted(blocks, index, count, b) <==> FirstBayBlock(blocks, index, b) && Regular(blocks[b], count) {
        ChosenIs(blocks, index, b);
        if 0 <= b < |blocks| {
          SoundIs(blocks[b], count);
        }
      }
    }
  }

  // ------------------------------------------------------------------ the answer

  ghost predicate Useful(blocks: seq<AesPage.Block>, index: nat, count: int) {
    exists slot, p :: Speaks(blocks, index, count, slot, p)
  }

  lemma MapIsUseful(blocks: seq<AesPage.Block>, bay: BayType)
    ensures AnyAddressable(SlotMapOf(blocks, bay.index, bay.count)) <==> Useful(blocks, bay.index, bay.count)
  {
    var m := SlotMapOf(blocks, bay.index, bay.count);
    if AnyAddressable(m) {
      var slot :| slot in m && m[slot].Some?;
      MapSpeaks(blocks, bay.index, bay.count, slot, m[slot].value);
    }
    if Useful(blocks, bay.index, bay.count) {
      var slot, p :| Speaks(blocks, bay.index, bay.count, slot, p);
      MapSpeaks(blocks, bay.index, bay.count, slot, p);
      assert m[slot].Some?;
    }
  }

  // No entry speaks for the slot, and none raises a doubt about it.
  ghost predicate Unheard(blocks: seq<AesPage.Block>, index: nat, count: int, slot: nat) {
    !Doubtful(blocks, index, count, slot) && forall p: nat :: !Speaks(blocks, index, count, slot, p)
  }

  // The answer on a page just read, for a slot in range and a known type.
  ghost function AnswerOn(page: seq<AesPage.Line>, bay: BayType, slot: nat): Outcome {
    var m := SlotsOn(page, bay);
    if AnyAddressable(m) then Look(bay, m, slot) else NothingAddressable
  }

  lemma AnswerOnIs(page: seq<AesPage.Line>, bay: BayType, slot: nat)
    ensures var blocks, answer := AesPage.Blocks(page), AnswerOn(page, bay, slot);
            && (forall i, p: nat :: answer == Addressed(i, p) <==> i == bay.index && Speaks(blocks, bay.index, bay.count, slot, p))
            && (answer == NothingAddressable <==> !Useful(blocks, bay.index, bay.count))
            && (answer == Ambiguous <==> Useful(blocks, bay.index, bay.count) && Doubtful(blocks, bay.index, bay.count, slot))
            && (answer == Unmapped <==> Useful(blocks, bay.index, bay.count) && Unheard(blocks, bay.index, bay.count, slot))
  {
    var blocks, m := AesPage.Blocks(page), SlotsOn(page, bay);
    MapIsUseful(blocks, bay);
    MapDoubts(blocks, bay.index, bay.count, slot);
    forall p: nat ensures (slot in m && m[slot] == Some(p)) <==> Speaks(blocks, bay.index, bay.count, slot, p) {
      MapSpeaks(blocks, bay.index, bay.count, slot, p);
    }
    forall i, p: nat ensures AnswerOn(page, bay, slot) == Addressed(i, p) <==> i == bay.index && Speaks(blocks, bay.index, bay.count, slot, p) {
      if Speaks(blocks, bay.index, bay.count, slot, p) {
        assert Useful(blocks, bay.index, bay.count);
      }
    }
  }

  lemma UncachedStep(caches: Caches, call: Call)
    requires call.id !in caches.types && call.id !in caches.slots
    requires 0 <= call.slot <= 1023 && call.attached && call.device && call.config.Read? && call.aes.Read?
    ensures Step(caches, call).1 ==
            match TypeOn(call.config.lines)
            case None => NoBayElements
            case Some(bay) => AnswerOn(call.aes.lines, bay, call.slot)
  {
  }

  // On pages just read, a call is answered with an element exactly when the shelf is there,
  // the slot is in range, the descriptor holding the bays is at that index, and the element's
  // entry speaks for the slot: no slot the shelf vouches for is refused, and no other addressed.
  lemma FreshCallAddressesIff(caches: Caches, call: Call, i: nat, p: nat)
    requires call.id !in caches.types && call.id !in caches.slots
    ensures Step(caches, call).1 == Addressed(i, p) <==>
              && 0 <= call.slot <= 1023 && call.attached && call.device && call.config.Read? && call.aes.Read?
              && exists c :: HoldsTheBays(ConfigPage.Descriptors(call.config.lines), i, c)
                             && Speaks(AesPage.Blocks(call.aes.lines), i, c, call.slot, p)
  {
    if 0 <= call.slot <= 1023 && call.attached && call.device && call.config.Read? && call.aes.Read? {
      UncachedStep(caches, call);
      TypeOnIs(call.config.lines);
      var ds := ConfigPage.Descriptors(call.config.lines);
      if TypeOn(call.config.lines).Some? {
        var bay := TypeOn(call.config.lines).value;
        AnswerOnIs(call.aes.lines, bay, call.slot);
        forall c | HoldsTheBays(ds, i, c) ensures bay == BayType(i, c) {
          OneHoldsTheBays(ds, i, c, bay.index, bay.count);
        }
      }
    }
  }

  // With the type known from an earlier call and the map still to be read, the same holds of
  // the known index and count.
  lemma KnownTypeAddressesIff(caches: Caches, call: Call, i: nat, p: nat)
    requires call.id in caches.types && call.id !in caches.slots
    ensures Step(caches, call).1 == Addressed(i, p) <==>
              && 0 <= call.slot <= 1023 && call.attached && call.aes.Read?
              && i == caches.types[call.id].index
              && Speaks(AesPage.Blocks(call.aes.lines), i, caches.types[call.id].count, call.slot, p)
  {
    if 0 <= call.slot <= 1023 && call.aes.Read? {
      var bay := caches.types[call.id];
      AnswerOnIs(call.aes.lines, bay, call.slot);
      assert call.attached ==> Step(caches, call).1 == AnswerOn(call.aes.lines, bay, call.slot);
    }
  }

  // And with which refusal otherwise, each by the first thing that is wrong.
  lemma FreshCallRefusesIff(caches: Caches, call: Call)
    requires call.id !in caches.types && call.id !in caches.slots
    ensures var answer := Step(caches, call).1;
            var ranged := 0 <= call.slot <= 1023;
            var there := ranged && call.attached;
            var asked := there && call.device;
            var ds := if call.config.Read? then ConfigPage.Descriptors(call.config.lines) else [];
            var typed := asked && call.config.Read? && (AnyPopulated(ds, "Array device slot") || AnyPopulated(ds, "Device slot"));
            var read := typed && call.aes.Read?;
            && (answer == OutOfRange <==> !ranged)
            && (answer == Detached <==> ranged && !call.attached)
            && (answer == NoDevice <==> there && !call.device)
            && (answer == ConfigUnreadable <==> asked && !call.config.Read?)
            && (answer == NoBayElements <==> asked && call.config.Read? && !typed)
            && (answer == AesUnreadable <==> typed && !call.aes.Read?)
            && var blocks := if call.aes.Read? then AesPage.Blocks(call.aes.lines) else [];
               && (answer == NothingAddressable <==> read && exists i: nat, c :: HoldsTheBays(ds, i, c) && !Useful(blocks, i, c))
               && (answer == Ambiguous <==>
                     read && exists i: nat, c :: HoldsTheBays(ds, i, c) && Useful(blocks, i, c) && Doubtful(blocks, i, c, call.slot))
               && (answer == Unmapped <==>
                     read && exists i: nat, c :: HoldsTheBays(ds, i, c) && Useful(blocks, i, c) && Unheard(blocks, i, c, call.slot))
  {
    if 0 <= call.slot <= 1023 && call.config.Read? {
      TypeOnIs(call.config.lines);
      var ds := ConfigPage.Descriptors(call.config.lines);
      if TypeOn(call.config.lines).Some? && call.aes.Read? {
        var bay := TypeOn(call.config.lines).value;
        AnswerOnIs(call.aes.lines, bay, call.slot);
        forall i: nat, c | HoldsTheBays(ds, i, c) ensures bay == BayType(i, c) {
          OneHoldsTheBays(ds, i, c, bay.index, bay.count);
        }
        if call.attached && call.device {
          UncachedStep(caches, call);
        }
      }
    }
  }

  // ------------------------------------------------------------------ the address shown

  // A slot is shown an address exactly when one entry of an unsuspicious page prints the slot,
  // in the first block of the bays' type index, and prints that address with it.
  lemma AddressIsShownIff(blocks: seq<AesPage.Block>, index: nat, slot: nat, address: string)
    ensures (var a := SasMap.SasMapOf(blocks, Some(index)); slot in a && a[slot] == address) <==>
            OnlyBaysPrintSlots(blocks)
            && exists b, p :: PrintedOnce(blocks, slot, b, p) && blocks[b].typeIndex == index
                              && (forall c :: 0 <= c < b ==> blocks[c].typeIndex != index)
                              && blocks[b].entries[p].address == Some(address)
    ensures SasMap.SasMapOf(blocks, None) == map[]
  {
    SasMap.AddressIff(blocks, index, slot, address);
    MisattributedIs(blocks);
    if OnlyBaysPrintSlots(blocks) {
      forall b, p ensures SoleClaim(blocks, slot, b, p) <==> PrintedOnce(blocks, slot, b, p) {
        SoleClaimIs(blocks, slot, b, p);
      }
    }
  }
}
