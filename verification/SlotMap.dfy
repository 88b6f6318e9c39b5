// From the blocks of an additional element status page to the map
// {device slot number -> element index an LED command uses}, with refusals.
module SlotMap {
  import opened Options
  import opened AesPage
  import opened ElementTypes

  predicate IsBay(block: Block) { block.elementType == ARRAY_DEVICE_SLOT || block.elementType == DEVICE_SLOT }

  // Some(p): element index p. None: the slot is known and refused.
  type Mapping = map<nat, Option<nat>>

  // ------------------------------------------------------------------ policy

  // A slot number under a header whose descriptors never carry one.
  predicate Misattributed(blocks: seq<Block>) {
    exists b :: 0 <= b < |blocks| && !IsBay(blocks[b]) && CarriesSlot(blocks[b].entries)
  }

  predicate CarriesSlot(entries: seq<Entry>) {
    exists p :: 0 <= p < |entries| && entries[p].slot.Some?
  }

  predicate ClaimedAt(blocks: seq<Block>, slot: nat, b: int, p: int) {
    0 <= b < |blocks| && IsBay(blocks[b]) && 0 <= p < |blocks[b].entries| && blocks[b].entries[p].slot == Some(slot)
  }

  ghost predicate SoleClaim(blocks: seq<Block>, slot: nat, b: int, p: int) {
    && ClaimedAt(blocks, slot, b, p)
    && (forall c, q :: ClaimedAt(blocks, slot, c, q) ==> c == b && q == p)
  }

  // The first bay block of the type descriptor in use.
  predicate Chosen(blocks: seq<Block>, typeIndex: nat, b: int) {
    && 0 <= b < |blocks| && IsBay(blocks[b]) && blocks[b].typeIndex == typeIndex
    && (forall c :: 0 <= c < b ==> !(IsBay(blocks[c]) && blocks[c].typeIndex == typeIndex))
  }

  datatype Offset = Offset(delta: int)

  function OffsetAt(entries: seq<Entry>, i: nat): Offset
    requires i < |entries| && entries[i].index.Some?
  {
    Offset(entries[i].index.value - i)
  }

  predicate Indexed(entries: seq<Entry>, i: int) { 0 <= i < |entries| && entries[i].index.Some? }

  // Every printed index sits at one offset from its position.
  ghost predicate OneOffset(entries: seq<Entry>) {
    forall i, j :: Indexed(entries, i) && Indexed(entries, j) ==> OffsetAt(entries, i) == OffsetAt(entries, j)
  }

  ghost predicate Sound(block: Block, expected: int) {
    OneOffset(block.entries) && !block.malformed && |block.entries| == expected
  }

  ghost predicate Trusted(blocks: seq<Block>, typeIndex: nat, expected: int, b: int) {
    Chosen(blocks, typeIndex, b) && Sound(blocks[b], expected)
  }

  // ------------------------------------------------------------------ the map

  datatype Site = Site(block: nat, position: nat)
  datatype Claim = Claim(sameType: bool, trusted: bool, position: nat)

  // Where a slot number is claimed, in page order, before position p of block b.
  function SitesBefore(blocks: seq<Block>, slot: nat, b: nat, p: nat): seq<Site>
    requires b <= |blocks|
    decreases b, p
  {
    if p > 0 then
      var earlier := SitesBefore(blocks, slot, b, p - 1);
      if ClaimedAt(blocks, slot, b, p - 1) then earlier + [Site(b, p - 1)] else earlier
    else if b > 0 then SitesBefore(blocks, slot, b - 1, |blocks[b - 1].entries|)
    else []
  }

  function Sites(blocks: seq<Block>, slot: nat): seq<Site> { SitesBefore(blocks, slot, |blocks|, 0) }

  ghost function Judge(blocks: seq<Block>, typeIndex: nat, expected: int, site: Site): Claim
    requires site.block < |blocks|
  {
    Claim(blocks[site.block].typeIndex == typeIndex, Trusted(blocks, typeIndex, expected, site.block), site.position)
  }

  ghost function Judged(blocks: seq<Block>, typeIndex: nat, expected: int, sites: seq<Site>): (claims: seq<Claim>)
    ensures |claims| == |sites|
  {
    seq(|sites|, i requires 0 <= i < |sites| =>
      if sites[i].block < |blocks| then Judge(blocks, typeIndex, expected, sites[i]) else Claim(false, false, 0))
  }

  // What the claims on one slot come to: unmapped, refused, or addressable.
  function Verdict(claims: seq<Claim>): Option<Option<nat>> {
    if |claims| == 1 && claims[0].trusted then Some(Some(claims[0].position))
    else if (exists i :: 0 <= i < |claims| && claims[i].sameType) || |claims| > 1 then Some(None)
    else None
  }

  ghost function VerdictOn(blocks: seq<Block>, typeIndex: nat, expected: int, slot: nat): Option<Option<nat>> {
    Verdict(Judged(blocks, typeIndex, expected, Sites(blocks, slot)))
  }

  function PrintedSlots(blocks: seq<Block>): set<nat> {
    set b, p | 0 <= b < |blocks| && 0 <= p < |blocks[b].entries| && blocks[b].entries[p].slot.Some?
      :: blocks[b].entries[p].slot.value
  }

  ghost function SlotMapOf(blocks: seq<Block>, typeIndex: nat, expected: int): Mapping {
    if Misattributed(blocks) then map[]
    else map slot | slot in PrintedSlots(blocks) && VerdictOn(blocks, typeIndex, expected, slot).Some?
           :: VerdictOn(blocks, typeIndex, expected, slot).value
  }

  // ------------------------------------------------------------------ the fold

  ghost predicate OffsetsUpTo(offsets: set<Offset>, entries: seq<Entry>, n: nat)
    requires n <= |entries|
  {
    forall o :: o in offsets <==> exists i :: i < n && Indexed(entries, i) && o == OffsetAt(entries, i)
  }

  method Offsets(entries: seq<Entry>) returns (offsets: set<Offset>)
    ensures |offsets| <= 1 <==> OneOffset(entries)
  {
    offsets := {};
    for i := 0 to |entries|
      invariant OffsetsUpTo(offsets, entries, i)
    {
      if entries[i].index.Some? {
        offsets := offsets + {OffsetAt(entries, i)};
      }
    }
    OffsetsAgree(entries, offsets);
  }

  lemma OffsetsAgree(entries: seq<Entry>, offsets: set<Offset>)
    requires OffsetsUpTo(offsets, entries, |entries|)
    ensures |offsets| <= 1 <==> OneOffset(entries)
  {
    if OneOffset(entries) {
      if i :| Indexed(entries, i) {
        assert offsets == {OffsetAt(entries, i)};
      } else {
        assert offsets == {};
      }
    } else {
      var i, j :| Indexed(entries, i) && Indexed(entries, j) && OffsetAt(entries, i) != OffsetAt(entries, j);
      TwoElements(offsets, OffsetAt(entries, i), OffsetAt(entries, j));
    }
  }

  lemma TwoElements<T>(s: set<T>, a: T, b: T)
    requires a in s && b in s && a != b
    ensures |s| > 1
  {
    assert |s - {a}| == |s| - 1;
    assert b in s - {a};
  }

  ghost predicate Gathered(claims: map<nat, seq<Claim>>, blocks: seq<Block>, typeIndex: nat, expected: int, b: nat, p: nat)
    requires b <= |blocks|
  {
    forall slot :: && (slot in claims <==> SitesBefore(blocks, slot, b, p) != [])
                   && (slot in claims ==> claims[slot] == Judged(blocks, typeIndex, expected, SitesBefore(blocks, slot, b, p)))
  }

  // _build_slot_map, in its three loops: the page-level proof, the claims, the verdicts.
  method BuildSlotMap(blocks: seq<Block>, typeIndex: nat, expected: int) returns (mapping: Mapping)
    ensures mapping == SlotMapOf(blocks, typeIndex, expected)
  {
    for b := 0 to |blocks|
      invariant forall c :: 0 <= c < b && !IsBay(blocks[c]) ==> !CarriesSlot(blocks[c].entries)
    {
      if !IsBay(blocks[b]) && CarriesSlot(blocks[b].entries) {
        return map[];
      }
    }
    var claims := GatherClaims(blocks, typeIndex, expected);
    mapping := Settle(claims);
    forall slot
      ensures slot in PrintedSlots(blocks) && VerdictOn(blocks, typeIndex, expected, slot).Some? <==> slot in mapping
      ensures slot in mapping ==> mapping[slot] == VerdictOn(blocks, typeIndex, expected, slot).value
    {
      if Sites(blocks, slot) != [] {
        SitesAreClaims(blocks, slot, |blocks|, 0);
        var site := Sites(blocks, slot)[0];
        assert ClaimedAt(blocks, slot, site.block, site.position);
        assert blocks[site.block].entries[site.position].slot.value == slot;
      } else {
        assert Judged(blocks, typeIndex, expected, Sites(blocks, slot)) == [];
      }
    }
  }

  method GatherClaims(blocks: seq<Block>, typeIndex: nat, expected: int) returns (claims: map<nat, seq<Claim>>)
    ensures Gathered(claims, blocks, typeIndex, expected, |blocks|, 0)
  {
    var firstChosenSeen := false;
    claims := map[];
    for b := 0 to |blocks|
      invariant firstChosenSeen == SeenBefore(blocks, typeIndex, b)
      invariant Gathered(claims, blocks, typeIndex, expected, b, 0)
    {
      var block := blocks[b];
      if IsBay(block) {
        var sameType := block.typeIndex == typeIndex;
        var chosen := sameType && !firstChosenSeen;
        assert chosen == Chosen(blocks, typeIndex, b);
        if sameType {
          firstChosenSeen := true;
        }
        var offsets := Offsets(block.entries);
        var trusted := chosen && |offsets| <= 1 && !block.malformed && |block.entries| == expected;
        claims := GatherBlock(blocks, typeIndex, expected, b, claims, sameType, trusted);
      } else {
        NotABay(blocks, b, |block.entries|);
      }
      NextBlock(claims, blocks, typeIndex, expected, b);
    }
  }

  method GatherBlock(blocks: seq<Block>, typeIndex: nat, expected: int, b: nat,
                     claimsBefore: map<nat, seq<Claim>>, sameType: bool, trusted: bool)
    returns (claims: map<nat, seq<Claim>>)
    requires b < |blocks| && IsBay(blocks[b])
    requires sameType == (blocks[b].typeIndex == typeIndex) && trusted == Trusted(blocks, typeIndex, expected, b)
    requires Gathered(claimsBefore, blocks, typeIndex, expected, b, 0)
    ensures Gathered(claims, blocks, typeIndex, expected, b, |blocks[b].entries|)
  {
    claims := claimsBefore;
    var entries := blocks[b].entries;
    for p := 0 to |entries|
      invariant Gathered(claims, blocks, typeIndex, expected, b, p)
    {
      if entries[p].slot.Some? {
        var slot := entries[p].slot.value;
        var earlier := if slot in claims then claims[slot] else [];
        JudgeOneMore(blocks, typeIndex, expected, SitesBefore(blocks, slot, b, p), Site(b, p));
        claims := claims[slot := earlier + [Claim(sameType, trusted, p)]];
      }
    }
  }

  lemma JudgeOneMore(blocks: seq<Block>, typeIndex: nat, expected: int, sites: seq<Site>, site: Site)
    requires site.block < |blocks|
    ensures Judged(blocks, typeIndex, expected, sites + [site]) ==
            Judged(blocks, typeIndex, expected, sites) + [Judge(blocks, typeIndex, expected, site)]
    ensures Judged(blocks, typeIndex, expected, []) == []
  {
  }

  method Settle(claims: map<nat, seq<Claim>>) returns (mapping: Mapping)
    ensures forall slot :: slot in mapping <==> slot in claims && Verdict(claims[slot]).Some?
    ensures forall slot :: slot in mapping ==> mapping[slot] == Verdict(claims[slot]).value
  {
    mapping := map[];
    var left := claims.Keys;
    while left != {}
      invariant left <= claims.Keys
      invariant forall slot :: slot in mapping <==> slot in claims.Keys - left && Verdict(claims[slot]).Some?
      invariant forall slot :: slot in mapping ==> mapping[slot] == Verdict(claims[slot]).value
      decreases left
    {
      var slot :| slot in left;
      left := left - {slot};
      var list := claims[slot];
      if |list| == 1 && list[0].trusted {
        mapping := mapping[slot := Some(list[0].position)];
      } else if (exists i :: 0 <= i < |list| && list[i].sameType) || |list| > 1 {
        mapping := mapping[slot := None];
      }
    }
  }

  predicate SeenBefore(blocks: seq<Block>, typeIndex: nat, b: nat)
    requires b <= |blocks|
  {
    exists c :: 0 <= c < b && IsBay(blocks[c]) && blocks[c].typeIndex == typeIndex
  }

  lemma NextBlock(claims: map<nat, seq<Claim>>, blocks: seq<Block>, typeIndex: nat, expected: int, b: nat)
    requires b < |blocks|
    requires Gathered(claims, blocks, typeIndex, expected, b, |blocks[b].entries|)
    ensures Gathered(claims, blocks, typeIndex, expected, b + 1, 0)
  {
    assert forall slot :: SitesBefore(blocks, slot, b + 1, 0) == SitesBefore(blocks, slot, b, |blocks[b].entries|);
  }

  lemma {:induction false} NotABay(blocks: seq<Block>, b: nat, p: nat)
    requires b < |blocks| && !IsBay(blocks[b])
    ensures forall slot :: SitesBefore(blocks, slot, b, p) == SitesBefore(blocks, slot, b, 0)
  {
    if p > 0 {
      NotABay(blocks, b, p - 1);
    }
  }

  // ------------------------------------------------------------------ what the map says

  ghost predicate Before(site: Site, b: nat, p: nat) {
    site.block < b || (site.block == b && site.position < p)
  }

  // The sites of a slot are exactly its claims, each once, in page order.
  lemma {:induction false} SitesAreClaims(blocks: seq<Block>, slot: nat, b: nat, p: nat)
    requires b <= |blocks|
    ensures forall site :: site in SitesBefore(blocks, slot, b, p) <==>
                             ClaimedAt(blocks, slot, site.block, site.position) && Before(site, b, p)
    ensures forall i, j :: 0 <= i < j < |SitesBefore(blocks, slot, b, p)| ==>
                             Before(SitesBefore(blocks, slot, b, p)[i],
                                    SitesBefore(blocks, slot, b, p)[j].block, SitesBefore(blocks, slot, b, p)[j].position)
    decreases b, p
  {
    if p > 0 {
      SitesAreClaims(blocks, slot, b, p - 1);
    } else if b > 0 {
      SitesAreClaims(blocks, slot, b - 1, |blocks[b - 1].entries|);
    }
  }

  lemma TwoSites(blocks: seq<Block>, slot: nat)
    requires |Sites(blocks, slot)| > 1
    ensures var sites := Sites(blocks, slot);
            && ClaimedAt(blocks, slot, sites[0].block, sites[0].position)
            && ClaimedAt(blocks, slot, sites[1].block, sites[1].position)
            && sites[0] != sites[1]
  {
    SitesAreClaims(blocks, slot, |blocks|, 0);
    var sites := Sites(blocks, slot);
    assert sites[0] in sites && sites[1] in sites;
    assert Before(sites[0], sites[1].block, sites[1].position);
  }

  lemma OneSite(blocks: seq<Block>, slot: nat)
    ensures forall b, p :: ClaimedAt(blocks, slot, b, p) ==> Site(b, p) in Sites(blocks, slot)
    ensures forall site :: site in Sites(blocks, slot) ==> ClaimedAt(blocks, slot, site.block, site.position)
    ensures forall b, p :: SoleClaim(blocks, slot, b, p) <==> 0 <= b && 0 <= p && Sites(blocks, slot) == [Site(b, p)]
  {
    SitesAreClaims(blocks, slot, |blocks|, 0);
    var sites := Sites(blocks, slot);
    forall b, p | SoleClaim(blocks, slot, b, p) ensures sites == [Site(b, p)] {
      assert Site(b, p) in sites;
      if |sites| > 1 {
        TwoSites(blocks, slot);
      }
    }
    forall b, p | 0 <= b && 0 <= p && sites == [Site(b, p)] ensures SoleClaim(blocks, slot, b, p) {
      assert Site(b, p) in sites;
      forall c, q | ClaimedAt(blocks, slot, c, q) ensures c == b && q == p {
        assert Site(c, q) in sites;
      }
    }
  }

  // A slot is addressable at p exactly when its only claim on the page is entry p of the
  // first bay block of the type in use, and that block passes every check.
  lemma AddressableIff(blocks: seq<Block>, typeIndex: nat, expected: int, slot: nat, p: nat)
    ensures (var m := SlotMapOf(blocks, typeIndex, expected); slot in m && m[slot] == Some(p)) <==>
            !Misattributed(blocks)
            && exists b :: Trusted(blocks, typeIndex, expected, b) && SoleClaim(blocks, slot, b, p)
  {
    OneSite(blocks, slot);
    var sites := Sites(blocks, slot);
    if exists b :: Trusted(blocks, typeIndex, expected, b) && SoleClaim(blocks, slot, b, p) {
      var b :| Trusted(blocks, typeIndex, expected, b) && SoleClaim(blocks, slot, b, p);
      assert sites == [Site(b, p)];
      assert blocks[b].entries[p].slot.value in PrintedSlots(blocks);
    }
    if |sites| == 1 {
      assert sites == [Site(sites[0].block, sites[0].position)];
      assert SoleClaim(blocks, slot, sites[0].block, sites[0].position);
    }
  }

  // A slot is refused by name exactly when two entries claim it, or its one claim is by a
  // block of the type in use that cannot be trusted.
  lemma RefusedIff(blocks: seq<Block>, typeIndex: nat, expected: int, slot: nat)
    ensures (var m := SlotMapOf(blocks, typeIndex, expected); slot in m && m[slot] == None) <==>
            !Misattributed(blocks)
            && (|| (exists b, p, c, q :: ClaimedAt(blocks, slot, b, p) && ClaimedAt(blocks, slot, c, q) && (b != c || p != q))
                || (exists b, p :: SoleClaim(blocks, slot, b, p) && blocks[b].typeIndex == typeIndex
                                   && !Trusted(blocks, typeIndex, expected, b)))
  {
    OneSite(blocks, slot);
    SitesAreClaims(blocks, slot, |blocks|, 0);
    var sites := Sites(blocks, slot);
    var claims := Judged(blocks, typeIndex, expected, sites);
    if |sites| == 0 {
      assert claims == [];
      assert forall b, p :: !ClaimedAt(blocks, slot, b, p);
    } else {
      var first := sites[0];
      assert first in sites && ClaimedAt(blocks, slot, first.block, first.position);
      assert blocks[first.block].entries[first.position].slot.value in PrintedSlots(blocks);
      if |sites| == 1 {
        assert sites == [Site(first.block, first.position)];
        assert SoleClaim(blocks, slot, first.block, first.position);
        assert claims[0] == Judge(blocks, typeIndex, expected, first);
      } else {
        var second := sites[1];
        assert second in sites && ClaimedAt(blocks, slot, second.block, second.position);
        assert Before(first, second.block, second.position);
      }
    }
  }

  // Addressable slots have distinct elements, all inside the declared element count.
  lemma AddressableIsInjective(blocks: seq<Block>, typeIndex: nat, expected: int, slot: nat, other: nat, p: nat)
    requires var m := SlotMapOf(blocks, typeIndex, expected);
             slot in m && m[slot] == Some(p) && other in m && m[other] == Some(p)
    ensures other == slot && p < expected
  {
    AddressableIff(blocks, typeIndex, expected, slot, p);
    AddressableIff(blocks, typeIndex, expected, other, p);
    var b :| Trusted(blocks, typeIndex, expected, b) && SoleClaim(blocks, slot, b, p);
    var c :| Trusted(blocks, typeIndex, expected, c) && SoleClaim(blocks, other, c, p);
    assert b == c;
  }
}
