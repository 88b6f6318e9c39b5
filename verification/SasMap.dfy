// The second reader of the additional element status page: device slot number -> the
// drive's SAS address, which must never contradict the LED map.
module SasMap {
  import opened Options
  import opened AesPage
  import opened ElementTypes
  import opened SlotMap

  // Here the first block of the type is taken whatever its element type name.
  predicate FirstOfType(blocks: seq<Block>, typeIndex: nat, b: int) {
    && 0 <= b < |blocks| && blocks[b].typeIndex == typeIndex
    && forall c :: 0 <= c < b ==> blocks[c].typeIndex != typeIndex
  }

  datatype AddressClaim = AddressClaim(chosen: bool, address: Option<string>)

  function ClaimOf(blocks: seq<Block>, typeIndex: nat, site: Site): AddressClaim
    requires site.block < |blocks| && site.position < |blocks[site.block].entries|
  {
    AddressClaim(FirstOfType(blocks, typeIndex, site.block), blocks[site.block].entries[site.position].address)
  }

  function AddressOn(blocks: seq<Block>, typeIndex: nat, slot: nat): Option<string> {
    var sites := Sites(blocks, slot);
    if |sites| == 1 && FirstOfType(blocks, typeIndex, sites[0].block)
       && sites[0].position < |blocks[sites[0].block].entries|
    then blocks[sites[0].block].entries[sites[0].position].address
    else None
  }

  function SasMapOf(blocks: seq<Block>, typeIndex: Option<nat>): map<nat, string> {
    if typeIndex.None? || Misattributed(blocks) then map[]
    else map slot | slot in PrintedSlots(blocks) && AddressOn(blocks, typeIndex.value, slot).Some?
           :: AddressOn(blocks, typeIndex.value, slot).value
  }

  // The claims after position p of block b: absent, one claim, or poisoned (None).
  ghost predicate Claimed(claimed: map<nat, Option<AddressClaim>>, blocks: seq<Block>, typeIndex: nat, b: nat, p: nat)
    requires b <= |blocks|
  {
    forall slot ::
      var sites := SitesBefore(blocks, slot, b, p);
      && (slot in claimed <==> sites != [])
      && (slot in claimed ==>
            if |sites| > 1 then claimed[slot] == None
            else ClaimedAt(blocks, slot, sites[0].block, sites[0].position)
                 && claimed[slot] == Some(ClaimOf(blocks, typeIndex, sites[0])))
  }

  method SlotSasAddresses(blocks: seq<Block>, typeIndex: Option<nat>) returns (addresses: map<nat, string>)
    ensures addresses == SasMapOf(blocks, typeIndex)
  {
    if typeIndex.None? {
      return map[];
    }
    for b := 0 to |blocks|
      invariant forall c :: 0 <= c < b && !IsBay(blocks[c]) ==> !CarriesSlot(blocks[c].entries)
    {
      if !IsBay(blocks[b]) && CarriesSlot(blocks[b].entries) {
        return map[];
      }
    }
    var claimed := GatherAddresses(blocks, typeIndex.value);
    addresses := map slot | slot in claimed && claimed[slot].Some? && claimed[slot].value.chosen
                            && claimed[slot].value.address.Some? :: claimed[slot].value.address.value;
    forall slot
      ensures slot in addresses <==> slot in SasMapOf(blocks, typeIndex)
      ensures slot in addresses ==> addresses[slot] == SasMapOf(blocks, typeIndex)[slot]
    {
      FinalClaim(claimed, blocks, typeIndex.value, slot);
    }
  }

  lemma FinalClaim(claimed: map<nat, Option<AddressClaim>>, blocks: seq<Block>, typeIndex: nat, slot: nat)
    requires Claimed(claimed, blocks, typeIndex, |blocks|, 0)
    ensures slot in claimed ==> slot in PrintedSlots(blocks)
    ensures AddressOn(blocks, typeIndex, slot) ==
            if slot in claimed && claimed[slot].Some? && claimed[slot].value.chosen then claimed[slot].value.address
            else None
  {
    var sites := Sites(blocks, slot);
    if sites != [] {
      SitesAreClaims(blocks, slot, |blocks|, 0);
      var site := sites[0];
      assert ClaimedAt(blocks, slot, site.block, site.position);
      assert blocks[site.block].entries[site.position].slot.value == slot;
    }
  }

  method GatherAddresses(blocks: seq<Block>, typeIndex: nat) returns (claimed: map<nat, Option<AddressClaim>>)
    requires !Misattributed(blocks)
    ensures Claimed(claimed, blocks, typeIndex, |blocks|, 0)
  {
    var firstChosenSeen := false;
    claimed := map[];
    for b := 0 to |blocks|
      invariant firstChosenSeen <==> exists c :: 0 <= c < b && blocks[c].typeIndex == typeIndex
      invariant Claimed(claimed, blocks, typeIndex, b, 0)
    {
      var block := blocks[b];
      var chosen := block.typeIndex == typeIndex && !firstChosenSeen;
      if block.typeIndex == typeIndex {
        firstChosenSeen := true;
      }
      for p := 0 to |block.entries|
        invariant Claimed(claimed, blocks, typeIndex, b, p)
      {
        var entry := block.entries[p];
        if entry.slot.Some? {
          assert CarriesSlot(block.entries);
          assert ClaimedAt(blocks, entry.slot.value, b, p);
          if entry.slot.value in claimed {
            claimed := claimed[entry.slot.value := None];
          } else {
            claimed := claimed[entry.slot.value := Some(AddressClaim(chosen, entry.address))];
          }
        }
      }
      assert forall slot :: SitesBefore(blocks, slot, b + 1, 0) == SitesBefore(blocks, slot, b, |block.entries|);
    }
  }

  // ------------------------------------------------------------------ agreement

  lemma AddressIff(blocks: seq<Block>, typeIndex: nat, slot: nat, address: string)
    ensures (var a := SasMapOf(blocks, Some(typeIndex)); slot in a && a[slot] == address) <==>
            !Misattributed(blocks)
            && exists b, p :: SoleClaim(blocks, slot, b, p) && FirstOfType(blocks, typeIndex, b)
                              && blocks[b].entries[p].address == Some(address)
  {
    OneSite(blocks, slot);
    var sites := Sites(blocks, slot);
    if |sites| == 1 {
      assert sites == [Site(sites[0].block, sites[0].position)];
      assert SoleClaim(blocks, slot, sites[0].block, sites[0].position);
      assert blocks[sites[0].block].entries[sites[0].position].slot.value in PrintedSlots(blocks);
    }
    if exists b, p :: SoleClaim(blocks, slot, b, p) && FirstOfType(blocks, typeIndex, b)
                      && blocks[b].entries[p].address == Some(address) {
      var b, p :| SoleClaim(blocks, slot, b, p) && FirstOfType(blocks, typeIndex, b)
                  && blocks[b].entries[p].address == Some(address);
      assert sites == [Site(b, p)];
    }
  }

  // A displayed address never contradicts the LED: its slot is known to the LED map, and is
  // either refused there or sent to the very entry that printed the address.
  lemma AddressNeverContradictsLed(blocks: seq<Block>, typeIndex: nat, expected: int, slot: nat)
    requires slot in SasMapOf(blocks, Some(typeIndex))
    ensures var m := SlotMapOf(blocks, typeIndex, expected);
            slot in m
            && (m[slot].Some? ==>
                  exists b :: Chosen(blocks, typeIndex, b) && m[slot].value < |blocks[b].entries|
                              && blocks[b].entries[m[slot].value].slot == Some(slot)
                              && blocks[b].entries[m[slot].value].address == Some(SasMapOf(blocks, Some(typeIndex))[slot]))
  {
    var address := SasMapOf(blocks, Some(typeIndex))[slot];
    AddressIff(blocks, typeIndex, slot, address);
    var b, p :| SoleClaim(blocks, slot, b, p) && FirstOfType(blocks, typeIndex, b)
                && blocks[b].entries[p].address == Some(address);
    assert Chosen(blocks, typeIndex, b);
    var m := SlotMapOf(blocks, typeIndex, expected);
    if Trusted(blocks, typeIndex, expected, b) {
      AddressableIff(blocks, typeIndex, expected, slot, p);
    } else {
      RefusedIff(blocks, typeIndex, expected, slot);
    }
  }

  // An LED the map can address shows the address of that same entry, exactly unless the entry
  // printed none or a non-bay block of the same type index came first.
  lemma LedAddressExactly(blocks: seq<Block>, typeIndex: nat, expected: int, slot: nat, b: nat, p: nat)
    requires Chosen(blocks, typeIndex, b)
    requires var m := SlotMapOf(blocks, typeIndex, expected); slot in m && m[slot] == Some(p)
    ensures p < |blocks[b].entries|
    ensures var a := SasMapOf(blocks, Some(typeIndex));
            var printed := blocks[b].entries[p].address;
            (slot in a <==> printed.Some? && FirstOfType(blocks, typeIndex, b))
            && (slot in a ==> Some(a[slot]) == printed)
  {
    AddressableIff(blocks, typeIndex, expected, slot, p);
    var c :| Trusted(blocks, typeIndex, expected, c) && SoleClaim(blocks, slot, c, p);
    assert c == b;
    var a := SasMapOf(blocks, Some(typeIndex));
    if slot in a {
      AddressIff(blocks, typeIndex, slot, a[slot]);
    }
    if blocks[b].entries[p].address.Some? && FirstOfType(blocks, typeIndex, b) {
      AddressIff(blocks, typeIndex, slot, blocks[b].entries[p].address.value);
    }
  }

  // ------------------------------------------------------------------ a cached map, a later page

  // The entry at p of block b is the one whose address is shown.
  ghost predicate ShownFrom(blocks: seq<Block>, typeIndex: nat, slot: nat, b: int, p: nat) {
    && slot in SasMapOf(blocks, Some(typeIndex))
    && 0 <= b < |blocks| && p < |blocks[b].entries|
    && blocks[b].entries[p].slot == Some(slot) && blocks[b].entries[p].address == Some(SasMapOf(blocks, Some(typeIndex))[slot])
  }

  // The LED map is kept for ever, the addresses are read again: when a later page shows an
  // address for a slot the map addresses, it is that element's exactly when the later page
  // still has the slot claimed at the same place.
  lemma LaterAddressIsTheElementsIff(earlier: seq<Block>, now: seq<Block>, typeIndex: nat, expected: int, slot: nat, b: nat, p: nat)
    requires Chosen(earlier, typeIndex, b)
    requires var m := SlotMapOf(earlier, typeIndex, expected); slot in m && m[slot] == Some(p)
    requires slot in SasMapOf(now, Some(typeIndex))
    ensures SoleClaim(earlier, slot, b, p)
    ensures ShownFrom(now, typeIndex, slot, b, p) <==> ClaimedAt(now, slot, b, p)
  {
    AddressableIff(earlier, typeIndex, expected, slot, p);
    var c :| Trusted(earlier, typeIndex, expected, c) && SoleClaim(earlier, slot, c, p);
    assert c == b;
    var address := SasMapOf(now, Some(typeIndex))[slot];
    AddressIff(now, typeIndex, slot, address);
    var d, q :| SoleClaim(now, slot, d, q) && FirstOfType(now, typeIndex, d) && now[d].entries[q].address == Some(address);
    if ShownFrom(now, typeIndex, slot, b, p) {
      ShownIsClaimed(now, typeIndex, slot, b, p);
    }
  }

  lemma ShownIsClaimed(blocks: seq<Block>, typeIndex: nat, slot: nat, b: int, p: nat)
    requires ShownFrom(blocks, typeIndex, slot, b, p)
    ensures ClaimedAt(blocks, slot, b, p)
  {
    if !IsBay(blocks[b]) {
      assert CarriesSlot(blocks[b].entries);
      assert Misattributed(blocks);
    }
  }

  // A shelf rewired under one logical id shows one entry's address and lights another's LED.
  lemma RewiredShelfDisagrees()
    ensures var five, six := Entry(None, None, Some(5), Some("a")), Entry(None, None, Some(6), Some("b"));
            var earlier := [Block(ARRAY_DEVICE_SLOT, 0, 0, [five, six], false)];
            var now := [Block(ARRAY_DEVICE_SLOT, 0, 0, [six, five], false)];
            && 5 in SlotMapOf(earlier, 0, 2) && SlotMapOf(earlier, 0, 2)[5] == Some(0)
            && ShownFrom(now, 0, 5, 0, 1) && !ShownFrom(now, 0, 5, 0, 0)
  {
    var five, six := Entry(None, None, Some(5), Some("a")), Entry(None, None, Some(6), Some("b"));
    var earlier := [Block(ARRAY_DEVICE_SLOT, 0, 0, [five, six], false)];
    var now := [Block(ARRAY_DEVICE_SLOT, 0, 0, [six, five], false)];
    assert Trusted(earlier, 0, 2, 0) && ClaimedAt(earlier, 5, 0, 0);
    AddressableIff(earlier, 0, 2, 5, 0);
    assert FirstOfType(now, 0, 0) && ClaimedAt(now, 5, 0, 1);
    AddressIff(now, 0, 5, "a");
  }
}
