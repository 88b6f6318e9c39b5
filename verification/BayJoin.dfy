// Composing a bay from the slot, a live identity read, and caches keyed by a block device
// name that the kernel reuses.
module BayJoin {
  import opened Options
  import DiskCache

  datatype Identity = Identity(serial: Option<string>, wwn: Option<string>, model: Option<string>, firmware: Option<string>,
                               sizeBytes: Option<nat>, transport: Option<string>, rotational: Option<bool>,
                               sasAddress: Option<string>)

  const NOBODY := Identity(None, None, None, None, None, None, None, None)

  datatype ZfsState = Online | Degraded | Faulted | Offline | Unavail | Removed | Spare | Unstated
  datatype Zfs = Zfs(pool: Option<string>, state: ZfsState, readErrors: nat, writeErrors: nat, checksumErrors: nat,
                     resilvering: bool)
  datatype Smart = Smart(overTemperature: bool, alert: Option<string>)
  datatype Health = Ok | Warning | Failed | Empty | Unknown

  const NO_ZFS := Zfs(None, Unstated, 0, 0, 0, false)
  const NO_SMART := Smart(false, None)

  datatype Slot = Slot(sesSlot: int, status: string, fault: bool, device: Option<string>)
  datatype Read = Unreadable | Known(identity: Identity)
  datatype Caches = Caches(remote: map<string, Identity>, zfs: map<string, Zfs>, smart: map<string, Smart>,
                           sas: map<int, string>)
  datatype Bay = Bay(slot: Slot, identity: Identity, zfs: Zfs, smart: Smart, health: Health, identified: bool)

  function Plain(s: string): string { DiskCache.Lower(DiskCache.Strip(s)) }

  predicate Present(s: Option<string>) { s.Some? && s.value != "" }

  // WWNs decide when both sides have one; serials otherwise; a one-sided field proves nothing.
  predicate Conflict(mine: Identity, remote: Identity) {
    if Present(mine.wwn) && Present(remote.wwn) then Plain(mine.wwn.value) != Plain(remote.wwn.value)
    else Present(mine.serial) && Present(remote.serial) && Plain(mine.serial.value) != Plain(remote.serial.value)
  }

  predicate ShelfSaysFailed(slot: Slot) { slot.fault || Plain(slot.status) in ["critical", "unrecoverable"] }

  function Classify(slot: Slot, zfs: Zfs, smart: Smart): Health {
    if ShelfSaysFailed(slot) then Failed
    else if !Present(slot.device) then Empty
    else if zfs.state.Faulted? || zfs.state.Unavail? || zfs.state.Removed? then Failed
    else if zfs.state.Degraded? || zfs.resilvering then Warning
    else if zfs.readErrors > 0 || zfs.writeErrors > 0 || zfs.checksumErrors > 0 then Warning
    else if smart.overTemperature then Warning
    else if Plain(slot.status) in ["noncritical", "non-critical", "warning"] then Warning
    else if Plain(slot.status) == "ok" then Ok
    else Unknown
  }

  function Fill(mine: Option<string>, theirs: Option<string>): Option<string> {
    if !Present(mine) && Present(theirs) then theirs else mine
  }

  // Live values first, gaps filled from the remote record.
  function Merge(mine: Identity, remote: Option<Identity>): Identity {
    if remote.None? then mine
    else
      var r := remote.value;
      Identity(Fill(mine.serial, r.serial), Fill(mine.wwn, r.wwn), Fill(mine.model, r.model), Fill(mine.firmware, r.firmware),
               if mine.sizeBytes.None? then r.sizeBytes else mine.sizeBytes, Fill(mine.transport, r.transport),
               if mine.rotational.None? then r.rotational else mine.rotational, mine.sasAddress)
  }

  function Get<K(==), V>(m: map<K, V>, key: K): Option<V> { if key in m then Some(m[key]) else None }
  function Or<V>(o: Option<V>, default: V): V { if o.Some? then o.value else default }

  // The name the caches are asked under.
  function NameOf(slot: Slot): string { Or(slot.device, "") }

  predicate Swapped(slot: Slot, read: Read, caches: Caches) {
    read.Known? && NameOf(slot) in caches.remote && Conflict(read.identity, caches.remote[NameOf(slot)])
  }

  // The remote record, if this composition may speak of it.
  function Placed(slot: Slot, read: Read, caches: Caches): Option<Identity> {
    if read.Known? && !Swapped(slot, read, caches) then Get(caches.remote, NameOf(slot)) else None
  }

  function Compose(slot: Slot, read: Read, caches: Caches): Bay {
    var mine := if read.Known? then read.identity else NOBODY;
    var swapped := Swapped(slot, read, caches);
    var zfs := if swapped then NO_ZFS else Or(Get(caches.zfs, NameOf(slot)), NO_ZFS);
    var smart := if swapped then NO_SMART else Or(Get(caches.smart, NameOf(slot)), NO_SMART);
    var merged := Merge(mine, Placed(slot, read, caches));
    var identity := if read.Known? && !swapped then merged.(sasAddress := Get(caches.sas, slot.sesSlot)) else merged;
    Bay(slot, identity, zfs, smart, Classify(slot, zfs, smart), read.Known?)
  }

  method ComposeBays(slots: seq<Slot>, live: seq<Read>, caches: Caches) returns (bays: seq<Bay>)
    requires |live| == |slots|
    ensures |bays| == |slots| && forall i :: 0 <= i < |slots| ==> bays[i] == Compose(slots[i], live[i], caches)
  {
    bays := [];
    for i := 0 to |slots|
      invariant |bays| == i && forall j :: 0 <= j < i ==> bays[j] == Compose(slots[j], live[j], caches)
    {
      var slot, read := slots[i], live[i];
      var mine := if read.Known? then read.identity else NOBODY;
      var remote := Get(caches.remote, NameOf(slot));
      var zfs := Or(Get(caches.zfs, NameOf(slot)), NO_ZFS);
      var smart := Or(Get(caches.smart, NameOf(slot)), NO_SMART);
      var swapped := remote.Some? && Conflict(mine, remote.value);
      if swapped {
        remote, zfs, smart := None, NO_ZFS, NO_SMART;
      }
      var identity := Merge(mine, if read.Known? then remote else None);
      if read.Known? && !swapped {
        identity := identity.(sasAddress := Get(caches.sas, slot.sesSlot));
      }
      bays := bays + [Bay(slot, identity, zfs, smart, Classify(slot, zfs, smart), read.Known?)];
    }
  }

  // ------------------------------------------------------------------ laws

  // What the reader returns never carries a SAS address of its own.
  predicate FromReader(read: Read) { read.Known? ==> read.identity.sasAddress.None? }

  function Given(s: Option<string>): Option<string> { if Present(s) then s else None }

  // A field shows the live value when there is one, and the record's when there is not.
  predicate Sourced<T(==)>(shown: Option<T>, live: Option<T>, recorded: Option<T>) {
    shown == if live.Some? then live else recorded
  }

  // Field by field: the live value where the read supplied one, else the value of the record
  // filed under this name, and that only for a disk the read placed here without
  // contradiction. The address of the slot is attached only then, too.
  lemma IdentityHasProvenance(slot: Slot, read: Read, caches: Caches)
    requires FromReader(read)
    ensures var shown, live := Compose(slot, read, caches).identity, if read.Known? then read.identity else NOBODY;
            var placed := read.Known? && !ProvenSwap(slot, read, caches);
            var record := if placed && NameOf(slot) in caches.remote then caches.remote[NameOf(slot)] else NOBODY;
            && Sourced(Given(shown.serial), Given(live.serial), Given(record.serial))
            && Sourced(Given(shown.wwn), Given(live.wwn), Given(record.wwn))
            && Sourced(Given(shown.model), Given(live.model), Given(record.model))
            && Sourced(Given(shown.firmware), Given(live.firmware), Given(record.firmware))
            && Sourced(shown.sizeBytes, live.sizeBytes, record.sizeBytes)
            && Sourced(Given(shown.transport), Given(live.transport), Given(record.transport))
            && Sourced(shown.rotational, live.rotational, record.rotational)
            && shown.sasAddress == if placed && slot.sesSlot in caches.sas then Some(caches.sas[slot.sesSlot]) else None
  {
  }

  // A shelf whose reads fail reports exactly the failures it would report with every disk
  // confirmed: bay by bay the condition and the health are the same, and no drive is named.
  lemma FailedReadsAreAsLoud(slots: seq<Slot>, live: seq<Read>, caches: Caches, i: nat)
    requires |live| == |slots| && i < |slots| && !Swapped(slots[i], live[i], caches)
    ensures var confirmed, unread := Compose(slots[i], live[i], caches), Compose(slots[i], Unreadable, caches);
            && unread.zfs == confirmed.zfs && unread.smart == confirmed.smart && unread.health == confirmed.health
            && unread.identity == NOBODY
  {
  }

  function Without(caches: Caches, name: string): Caches {
    Caches(caches.remote - {name}, caches.zfs - {name}, caches.smart - {name}, caches.sas)
  }

  // A proven swap is composed as if nothing were cached under the reused name, and without
  // the slot's possibly stale address.
  lemma SwapShedsTheName(slot: Slot, read: Read, caches: Caches)
    requires FromReader(read) && Swapped(slot, read, caches)
    ensures Compose(slot, read, caches) ==
            var bay := Compose(slot, read, Without(caches, NameOf(slot)));
            bay.(identity := bay.identity.(sasAddress := None))
  {
  }

  predicate Lost(zfs: Zfs) { zfs.state.Faulted? || zfs.state.Unavail? || zfs.state.Removed? }

  predicate Troubled(zfs: Zfs) {
    zfs.state.Degraded? || zfs.resilvering || zfs.readErrors > 0 || zfs.writeErrors > 0 || zfs.checksumErrors > 0
  }

  // What the shelf says of a slot, white space and case aside.
  predicate ShelfFails(slot: Slot) { slot.fault || Plain(slot.status) == "critical" || Plain(slot.status) == "unrecoverable" }
  predicate ShelfWarns(slot: Slot) {
    Plain(slot.status) == "noncritical" || Plain(slot.status) == "non-critical" || Plain(slot.status) == "warning"
  }

  // What the appliance files under the bay's name says of its pool and its temperature.
  predicate FiledLost(slot: Slot, caches: Caches) { NameOf(slot) in caches.zfs && Lost(caches.zfs[NameOf(slot)]) }
  predicate FiledTrouble(slot: Slot, caches: Caches) {
    || (NameOf(slot) in caches.zfs && Troubled(caches.zfs[NameOf(slot)]))
    || (NameOf(slot) in caches.smart && caches.smart[NameOf(slot)].overTemperature)
  }

  predicate Said(s: Option<string>) { s.Some? && s.value != "" }

  // The live read and the record under the same name are provably of two disks: their WWNs
  // differ, or, where one of them has none, their serials do.
  predicate ProvenSwap(slot: Slot, read: Read, caches: Caches) {
    && read.Known? && NameOf(slot) in caches.remote
    && var mine, filed := read.identity, caches.remote[NameOf(slot)];
       if Said(mine.wwn) && Said(filed.wwn) then Plain(mine.wwn.value) != Plain(filed.wwn.value)
       else Said(mine.serial) && Said(filed.serial) && Plain(mine.serial.value) != Plain(filed.serial.value)
  }

  lemma FiledIsHeard(slot: Slot, read: Read, caches: Caches)
    ensures var bay := Compose(slot, read, caches);
            && (Lost(bay.zfs) <==> !ProvenSwap(slot, read, caches) && FiledLost(slot, caches))
            && (Troubled(bay.zfs) || bay.smart.overTemperature <==> !ProvenSwap(slot, read, caches) && FiledTrouble(slot, caches))
  {
    assert Swapped(slot, read, caches) == ProvenSwap(slot, read, caches);
  }

  // The health of a composed bay, over every cache and every live read. The shelf's own word
  // for failure always counts; without a device the bay is otherwise empty; what is filed
  // under the name counts unless a swap is proven; and a quiet bay is ok only if the shelf
  // says so.
  lemma HealthIs(slot: Slot, read: Read, caches: Caches)
    ensures var health := Compose(slot, read, caches).health;
            var heard := !ProvenSwap(slot, read, caches);
            var failed := ShelfFails(slot) || (Said(slot.device) && heard && FiledLost(slot, caches));
            var alarmed := failed || (Said(slot.device) && (ShelfWarns(slot) || (heard && FiledTrouble(slot, caches))));
            && (health == Failed <==> failed)
            && (health == Empty <==> !ShelfFails(slot) && !Said(slot.device))
            && (health == Warning <==> alarmed && !failed)
            && (health == Ok <==> Said(slot.device) && !alarmed && Plain(slot.status) == "ok")
            && (health == Unknown <==> Said(slot.device) && !alarmed && Plain(slot.status) != "ok")
  {
    FiledIsHeard(slot, read, caches);
  }

  // ------------------------------------------------------------------ with the reader's history

  function ReadOf(outcome: DiskCache.Outcome): Read {
    match outcome
    case Unreadable => Unreadable
    case Known(i) => Known(Identity(i.serial, i.wwn, i.model, i.firmware, i.sizeBytes, None, i.rotational, None))
  }

  // The record was filed for a disk that is provably not the one with this WWN.
  predicate OfAnother(record: Identity, wwn: string) { Present(record.wwn) && Plain(record.wwn.value) != Plain(wwn) }

  // Some call up to i read this identity in full, under the name and wwid that call i saw.
  ghost predicate ReadFromThisDisk(calls: seq<DiskCache.Call>, i: nat, identity: Identity)
    requires i < |calls|
  {
    exists j, known :: 0 <= j <= i && DiskCache.ReadBy(calls, j, calls[i].name, DiskCache.TextOf(calls[i].fs.wwid), known)
                       && Known(identity) == ReadOf(DiskCache.Known(known))
  }

  // Block device names are reused, the reader remembers, and the remote records lag. Still,
  // over any history of the sysfs tree and whatever the caches hold, a bay whose disk shows a
  // WWN now is displayed with that WWN; when the record under its name is another disk's,
  // everything displayed was read from this very disk and nothing filed under the name is used.
  lemma BayNeverWearsAnotherDisk(calls: seq<DiskCache.Call>, i: nat, slot: Slot, caches: Caches)
    requires i < |calls| && calls[i].name != "" && calls[i].fs.present && slot.device == Some(calls[i].name)
    requires DiskCache.NormaliseWwn(DiskCache.TextOf(calls[i].fs.wwid)).Some?
    ensures var wwn := DiskCache.NormaliseWwn(DiskCache.TextOf(calls[i].fs.wwid));
            var bay := Compose(slot, ReadOf(DiskCache.OutcomeOf(calls, i)), caches);
            && bay.identity.wwn == wwn
            && (calls[i].name in caches.remote && OfAnother(caches.remote[calls[i].name], wwn.value) ==>
                  && ReadFromThisDisk(calls, i, bay.identity)
                  && bay.zfs == NO_ZFS && bay.smart == NO_SMART)
  {
    var outcome := DiskCache.OutcomeOf(calls, i);
    var known := WwidIsNeverSilent(calls, i);
    var j :| 0 <= j <= i && DiskCache.ReadBy(calls, j, calls[i].name, DiskCache.TextOf(calls[i].fs.wwid), known);
    assert Known(ReadOf(outcome).identity) == ReadOf(DiskCache.Known(known));
    assert ReadFromThisDisk(calls, i, ReadOf(outcome).identity);
  }

  lemma WwidIsNeverSilent(calls: seq<DiskCache.Call>, i: nat) returns (known: DiskCache.Identity)
    requires i < |calls| && calls[i].name != "" && calls[i].fs.present
    requires DiskCache.NormaliseWwn(DiskCache.TextOf(calls[i].fs.wwid)).Some?
    ensures DiskCache.OutcomeOf(calls, i) == DiskCache.Known(known)
    ensures known.wwn == DiskCache.NormaliseWwn(DiskCache.TextOf(calls[i].fs.wwid))
    ensures exists j :: 0 <= j <= i && DiskCache.ReadBy(calls, j, calls[i].name, DiskCache.TextOf(calls[i].fs.wwid), known)
  {
    DiskCache.RefusalForgets(calls, i);
    known := DiskCache.OutcomeOf(calls, i).identity;
    DiskCache.IdentityIsOfThisDisk(calls, i);
  }

  // Over any sysfs history and any caches, for a disk that shows a WWN: the bay is failed
  // exactly when the shelf says so, or the pool lost the disk filed under this name and that
  // record is not provably another disk's. It alarms at all exactly when, beyond that, the
  // shelf warns or something filed for this disk is in trouble. So no departed disk's fault
  // is shown, and no fault of the disk that is there is hidden.
  lemma AlarmsAreThisDisks(calls: seq<DiskCache.Call>, i: nat, slot: Slot, caches: Caches)
    requires i < |calls| && calls[i].name != "" && calls[i].fs.present && slot.device == Some(calls[i].name)
    requires DiskCache.NormaliseWwn(DiskCache.TextOf(calls[i].fs.wwid)).Some?
    requires calls[i].name in caches.remote && Present(caches.remote[calls[i].name].wwn)
    ensures var wwn := DiskCache.NormaliseWwn(DiskCache.TextOf(calls[i].fs.wwid)).value;
            var health := Compose(slot, ReadOf(DiskCache.OutcomeOf(calls, i)), caches).health;
            var others := OfAnother(caches.remote[calls[i].name], wwn);
            && (health == Failed <==> ShelfFails(slot) || (!others && FiledLost(slot, caches)))
            && (health in {Failed, Warning} <==>
                  ShelfFails(slot) || ShelfWarns(slot)
                  || (!others && (FiledLost(slot, caches) || FiledTrouble(slot, caches))))
  {
    HealthIs(slot, ReadOf(DiskCache.OutcomeOf(calls, i)), caches);
    SwapIsAnotherDisk(calls, i, slot, caches);
  }

  lemma SwapIsAnotherDisk(calls: seq<DiskCache.Call>, i: nat, slot: Slot, caches: Caches)
    requires i < |calls| && calls[i].name != "" && calls[i].fs.present && slot.device == Some(calls[i].name)
    requires DiskCache.NormaliseWwn(DiskCache.TextOf(calls[i].fs.wwid)).Some?
    requires calls[i].name in caches.remote && Present(caches.remote[calls[i].name].wwn)
    ensures ProvenSwap(slot, ReadOf(DiskCache.OutcomeOf(calls, i)), caches) <==>
            OfAnother(caches.remote[calls[i].name], DiskCache.NormaliseWwn(DiskCache.TextOf(calls[i].fs.wwid)).value)
  {
    var known := WwidIsNeverSilent(calls, i);
  }
}
