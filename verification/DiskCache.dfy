// Disk identity read from sysfs, cached by (name, wwid): a block device name is not
// identity and is reused, so a cached answer is served only while the wwid still matches.
module DiskCache {
  import opened Options

  // One read of one attribute: not there, refused by the kernel, or its text.
  datatype Attr = NotFound | IoError | Content(text: string)

  // What one call would read. Each attribute is read at its own moment, so nothing relates them.
  datatype Sysfs = Sysfs(present: bool, wwid: Attr, vpd: Attr, serial: Attr, size: Attr,
                         rotational: Attr, vendor: Attr, model: Attr, rev: Attr)

  datatype Identity = Identity(serial: Option<string>, wwn: Option<string>, model: Option<string>,
                               firmware: Option<string>, sizeBytes: Option<nat>, rotational: Option<bool>)

  const NOTHING := Identity(None, None, None, None, None, None)
  const SECTOR := 512
  const VPD_HEADER := 4

  datatype Outcome = Known(identity: Identity) | Unreadable

  // ------------------------------------------------------------------ text

  predicate IsSpace(c: char) { c == ' ' || '\t' <= c <= '\r' || c as int in {28, 29, 30, 31, 0x85, 0xA0} }

  function StripLeft(s: string): string { if s != [] && IsSpace(s[0]) then StripLeft(s[1..]) else s }

  function StripRight(s: string): string { if s != [] && IsSpace(s[|s| - 1]) then StripRight(s[..|s| - 1]) else s }

  function Strip(s: string): string { StripRight(StripLeft(s)) }

  function LowerChar(c: char): char { if 'A' <= c <= 'Z' then c + 32 as char else c }

  function Lower(s: string): (r: string)
    ensures |r| == |s|
  {
    seq(|s|, i requires 0 <= i < |s| => LowerChar(s[i]))
  }

  function FirstWord(s: string): string { if s == [] || IsSpace(s[0]) then [] else [s[0]] + FirstWord(s[1..]) }

  function NonEmpty(s: string): Option<string> { if s == [] then None else Some(s) }

  function TextOf(attr: Attr): Option<string> { if attr.Content? then NonEmpty(Strip(attr.text)) else None }

  // ------------------------------------------------------------------ identifiers

  function Printable(s: string): string {
    if s == [] then [] else (if ' ' <= s[0] <= '~' then [s[0]] else []) + Printable(s[1..])
  }

  // The unit serial page first, the serial attribute failing that.
  function SerialOf(fs: Sysfs): (Option<string>, bool) {
    var page := if fs.vpd.Content? && |fs.vpd.text| > VPD_HEADER then Strip(Printable(fs.vpd.text[VPD_HEADER..])) else [];
    if page != [] then (Some(page), false)
    else (TextOf(fs.serial), fs.vpd.IoError? || fs.serial.IoError?)
  }

  predicate HasPrefix(s: string, prefix: string) { |prefix| <= |s| && Lower(s[..|prefix|]) == prefix }

  function WithoutPrefix(value: string): string {
    if HasPrefix(value, "naa.") then value[4..]
    else if HasPrefix(value, "0x") then value[2..]
    else if HasPrefix(value, "eui.") then value[4..]
    else if HasPrefix(value, "wwn-") then value[4..]
    else value
  }

  function NormaliseWwn(raw: Option<string>): Option<string> {
    if raw.None? || raw.value == [] then None
    else
      var value := Lower(Strip(WithoutPrefix(FirstWord(Strip(raw.value)))));
      if value == [] then None else Some("0x" + value)
  }

  predicate Digits(s: string) { s != [] && forall i :: 0 <= i < |s| ==> '0' <= s[i] <= '9' }

  function Number(s: string): nat
    requires forall i :: 0 <= i < |s| ==> '0' <= s[i] <= '9'
  {
    if s == [] then 0 else 10 * Number(s[..|s| - 1]) + (s[|s| - 1] as int - '0' as int)
  }

  predicate StartsWith(s: string, prefix: string) { |prefix| <= |s| && s[..|prefix|] == prefix }

  // Everything the sysfs tree says of a disk, with nothing remembered.
  function FreshIdentity(fs: Sysfs): Identity {
    var size := TextOf(fs.size);
    var rota := TextOf(fs.rotational);
    var vendor, model := TextOf(fs.vendor), TextOf(fs.model);
    Identity(SerialOf(fs).0, NormaliseWwn(TextOf(fs.wwid)),
             if vendor.Some? && model.Some? && !StartsWith(model.value, vendor.value)
             then Some(Strip(vendor.value + " " + model.value)) else model,
             TextOf(fs.rev),
             if size.Some? && Digits(size.value) then Some(Number(size.value) * SECTOR) else None,
             if rota == Some("0") || rota == Some("1") then Some(rota == Some("1")) else None)
  }

  // Neither identifier, and at least one of them only because its read failed.
  predicate Silent(fs: Sysfs) {
    NormaliseWwn(TextOf(fs.wwid)).None? && SerialOf(fs).0.None? && (fs.wwid.IoError? || SerialOf(fs).1)
  }

  function Uncached(fs: Sysfs): Outcome {
    if !fs.present then Known(NOTHING) else if Silent(fs) then Unreadable else Known(FreshIdentity(fs))
  }

  // ------------------------------------------------------------------ the reader

  datatype Cached = Cached(wwid: string, identity: Identity)
  type Cache = map<string, Cached>

  predicate Hit(cache: Cache, name: string, fs: Sysfs) {
    fs.present && name in cache && TextOf(fs.wwid) == Some(cache[name].wwid)
  }

  function Step(cache: Cache, name: string, fs: Sysfs): (Cache, Outcome) {
    if name == "" then (cache, Known(NOTHING))
    else if Hit(cache, name, fs) then (cache, Known(cache[name].identity))
    else
      var outcome := Uncached(fs);
      var wwid := TextOf(fs.wwid);
      (if fs.present && outcome.Known? && wwid.Some? then cache[name := Cached(wwid.value, outcome.identity)] else cache - {name},
       outcome)
  }

  class DiskInfoReader {
    var cache: Cache

    constructor ()
      ensures cache == map[]
    {
      cache := map[];
    }

    method Read(name: string, fs: Sysfs) returns (outcome: Outcome)
      modifies this
      ensures (cache, outcome) == Step(old(cache), name, fs)
    {
      if name == "" {
        return Known(NOTHING);
      }
      if !fs.present {
        cache := cache - {name};
        return Known(NOTHING);
      }
      var rawWwid := TextOf(fs.wwid);
      if name in cache && rawWwid.Some? && cache[name].wwid == rawWwid.value {
        return Known(cache[name].identity);
      }
      var (serial, serialFailed) := SerialOf(fs);
      var wwn := NormaliseWwn(rawWwid);
      if wwn.None? && serial.None? && (fs.wwid.IoError? || serialFailed) {
        cache := cache - {name};
        return Unreadable;
      }
      var identity := ReadInFull(fs, rawWwid, serial);
      if rawWwid.Some? {
        cache := cache[name := Cached(rawWwid.value, identity)];
      } else {
        cache := cache - {name};
      }
      return Known(identity);
    }

    // The attributes beside the two identifiers.
    method ReadInFull(fs: Sysfs, rawWwid: Option<string>, serial: Option<string>) returns (identity: Identity)
      requires rawWwid == TextOf(fs.wwid) && serial == SerialOf(fs).0
      ensures identity == FreshIdentity(fs)
    {
      var sizeBytes: Option<nat> := None;
      var rawSize := TextOf(fs.size);
      if rawSize.Some? && Digits(rawSize.value) {
        sizeBytes := Some(Number(rawSize.value) * SECTOR);
      }
      var rotational: Option<bool> := None;
      var rawRota := TextOf(fs.rotational);
      if rawRota == Some("0") || rawRota == Some("1") {
        rotational := Some(rawRota == Some("1"));
      }
      var vendor, model := TextOf(fs.vendor), TextOf(fs.model);
      if vendor.Some? && model.Some? && !StartsWith(model.value, vendor.value) {
        model := Some(Strip(vendor.value + " " + model.value));
      }
      identity := Identity(serial, NormaliseWwn(rawWwid), model, TextOf(fs.rev), sizeBytes, rotational);
    }
  }

  // ------------------------------------------------------------------ whole histories

  datatype Call = Call(name: string, fs: Sysfs)

  function CacheAfter(calls: seq<Call>, n: nat): Cache
    requires n <= |calls|
  {
    if n == 0 then map[] else Step(CacheAfter(calls, n - 1), calls[n - 1].name, calls[n - 1].fs).0
  }

  function OutcomeOf(calls: seq<Call>, i: nat): Outcome
    requires i < |calls|
  {
    Step(CacheAfter(calls, i), calls[i].name, calls[i].fs).1
  }

  // Call j read this disk in full, under this name and wwid.
  predicate ReadBy(calls: seq<Call>, j: int, name: string, wwid: Option<string>, identity: Identity) {
    0 <= j < |calls| && calls[j].name == name && name != "" && calls[j].fs.present
    && TextOf(calls[j].fs.wwid) == wwid && Uncached(calls[j].fs) == Known(identity)
  }

  lemma NewEntryWasRead(cache: Cache, name: string, fs: Sysfs, other: string)
    ensures var after := Step(cache, name, fs).0;
            other in after && !(other in cache && after[other] == cache[other]) ==>
              && other == name != "" && fs.present
              && TextOf(fs.wwid) == Some(after[other].wwid) && Uncached(fs) == Known(after[other].identity)
  {
  }

  lemma {:induction false} CacheWasRead(calls: seq<Call>, n: nat, name: string)
    requires n <= |calls| && name in CacheAfter(calls, n)
    ensures exists j :: 0 <= j < n && ReadBy(calls, j, name, Some(CacheAfter(calls, n)[name].wwid), CacheAfter(calls, n)[name].identity)
  {
    assert n > 0;
    var before, after := CacheAfter(calls, n - 1), CacheAfter(calls, n);
    NewEntryWasRead(before, calls[n - 1].name, calls[n - 1].fs, name);
    if name in before && after[name] == before[name] {
      CacheWasRead(calls, n - 1, name);
    } else {
      assert ReadBy(calls, n - 1, name, Some(after[name].wwid), after[name].identity);
    }
  }

  // Over any history of the sysfs tree, an identity returned for a present disk carries the
  // WWN read in that very call, and all of it was read by one call that saw the same wwid
  // under the same name: a reused name can never wear the previous disk's identity.
  lemma IdentityIsOfThisDisk(calls: seq<Call>, i: nat)
    requires i < |calls| && calls[i].name != "" && calls[i].fs.present && OutcomeOf(calls, i).Known?
    ensures var identity, wwid := OutcomeOf(calls, i).identity, TextOf(calls[i].fs.wwid);
            && identity.wwn == NormaliseWwn(wwid)
            && (exists j :: 0 <= j <= i && ReadBy(calls, j, calls[i].name, wwid, identity))
            && (wwid.None? ==> identity == FreshIdentity(calls[i].fs))
  {
    var cache := CacheAfter(calls, i);
    var name, fs := calls[i].name, calls[i].fs;
    if Hit(cache, name, fs) {
      CacheWasRead(calls, i, name);
    } else {
      assert ReadBy(calls, i, name, TextOf(fs.wwid), OutcomeOf(calls, i).identity);
    }
  }

  // It refuses exactly when the disk is present, silent, and not revalidated by its wwid, and
  // then, as for an absent disk or one without a wwid, remembers nothing.
  lemma RefusalForgets(calls: seq<Call>, i: nat)
    requires i < |calls| && calls[i].name != ""
    ensures var name, fs := calls[i].name, calls[i].fs;
            && (OutcomeOf(calls, i).Unreadable? <==> fs.present && Silent(fs) && !Hit(CacheAfter(calls, i), name, fs))
            && (OutcomeOf(calls, i).Unreadable? || !fs.present || TextOf(fs.wwid).None? ==> name !in CacheAfter(calls, i + 1))
            && (forall other :: other != name ==>
                  (other in CacheAfter(calls, i + 1) <==> other in CacheAfter(calls, i))
                  && (other in CacheAfter(calls, i) ==> CacheAfter(calls, i + 1)[other] == CacheAfter(calls, i)[other]))
  {
    assert CacheAfter(calls, i + 1) == Step(CacheAfter(calls, i), calls[i].name, calls[i].fs).0;
  }

  // ------------------------------------------------------------------ what the cache remembers

  // What call i would return with nothing remembered.
  function Fresh(calls: seq<Call>, i: nat): Outcome
    requires i < |calls|
  {
    if calls[i].name == "" then Known(NOTHING) else Uncached(calls[i].fs)
  }

  // Call i is the last one before n to ask for this name.
  ghost predicate LastAsk(calls: seq<Call>, name: string, i: int, n: nat) {
    0 <= i < n <= |calls| && calls[i].name == name && forall k :: i < k < n ==> calls[k].name != name
  }

  ghost predicate Asked(calls: seq<Call>, name: string, n: nat) { exists i :: LastAsk(calls, name, i, n) }

  // Both calls saw a present disk with one and the same raw wwid.
  predicate SameWwid(calls: seq<Call>, i: nat, j: nat)
    requires i < |calls| && j < |calls|
  {
    calls[i].fs.present && calls[j].fs.present
    && TextOf(calls[i].fs.wwid).Some? && TextOf(calls[i].fs.wwid) == TextOf(calls[j].fs.wwid)
  }

  // What one call leaves in the cache: its own answer, if it may be kept; other names untouched.
  lemma StepRemembers(cache: Cache, name: string, fs: Sysfs, other: string)
    requires other != ""
    ensures var (after, outcome) := Step(cache, name, fs);
            if other != name then (other in after <==> other in cache) && (other in cache ==> after[other] == cache[other])
            else if fs.present && TextOf(fs.wwid).Some? && outcome.Known?
            then name in after && after[name] == Cached(TextOf(fs.wwid).value, outcome.identity)
            else name !in after
  {
    if name != "" && Hit(cache, name, fs) {
      assert cache[name] == Cached(TextOf(fs.wwid).value, cache[name].identity);
    }
  }

  lemma {:induction false} UnaskedIsKept(calls: seq<Call>, name: string, m: nat, n: nat)
    requires name != "" && m <= n <= |calls| && forall k :: m <= k < n ==> calls[k].name != name
    ensures name in CacheAfter(calls, n) <==> name in CacheAfter(calls, m)
    ensures name in CacheAfter(calls, n) ==> CacheAfter(calls, n)[name] == CacheAfter(calls, m)[name]
  {
    if m < n {
      UnaskedIsKept(calls, name, m, n - 1);
      StepRemembers(CacheAfter(calls, n - 1), calls[n - 1].name, calls[n - 1].fs, name);
    }
  }

  // The cache holds, under a name, exactly the answer last given for it, if that was the
  // identity of a present disk with a wwid.
  lemma EntryIsLastAnswer(calls: seq<Call>, name: string, i: nat, n: nat)
    requires name != "" && LastAsk(calls, name, i, n)
    ensures var wwid := TextOf(calls[i].fs.wwid);
            if calls[i].fs.present && wwid.Some? && OutcomeOf(calls, i).Known?
            then name in CacheAfter(calls, n) && CacheAfter(calls, n)[name] == Cached(wwid.value, OutcomeOf(calls, i).identity)
            else name !in CacheAfter(calls, n)
  {
    StepRemembers(CacheAfter(calls, i), calls[i].name, calls[i].fs, name);
    UnaskedIsKept(calls, name, i + 1, n);
  }

  lemma {:induction false} NeverAsked(calls: seq<Call>, name: string, n: nat)
    requires n <= |calls| && forall k :: 0 <= k < n ==> calls[k].name != name
    ensures name !in CacheAfter(calls, n)
  {
    if n > 0 {
      NeverAsked(calls, name, n - 1);
    }
  }

  // A call repeats the last answer under its name when that identified the same wwid, and
  // reads everything afresh otherwise.
  lemma AnswerRepeatsOrIsFresh(calls: seq<Call>, i: nat, j: nat)
    requires j < |calls| && calls[j].name != "" && LastAsk(calls, calls[j].name, i, j)
    ensures OutcomeOf(calls, j) ==
            if OutcomeOf(calls, i).Known? && SameWwid(calls, i, j) then OutcomeOf(calls, i) else Fresh(calls, j)
  {
    EntryIsLastAnswer(calls, calls[j].name, i, j);
  }

  lemma {:induction false} AskedOrNever(calls: seq<Call>, name: string, n: nat)
    requires n <= |calls|
    ensures Asked(calls, name, n) || forall k :: 0 <= k < n ==> calls[k].name != name
  {
    if n > 0 {
      AskedOrNever(calls, name, n - 1);
      if calls[n - 1].name == name {
        assert LastAsk(calls, name, n - 1, n);
      } else if Asked(calls, name, n - 1) {
        var m: nat := n - 1;
        var i :| LastAsk(calls, name, i, m);
        assert LastAsk(calls, name, i, n);
      }
    }
  }

  // Between one identification under a name and the next ask for it, the disk reads the same
  // or shows another wwid.
  ghost predicate StableWhileCached(calls: seq<Call>) {
    forall i, j :: 0 <= i < j < |calls| && calls[j].name != "" && LastAsk(calls, calls[j].name, i, j)
                   && SameWwid(calls, i, j) && Fresh(calls, i).Known?
                   ==> Fresh(calls, i) == Fresh(calls, j)
  }

  lemma {:induction false} StableMeansFresh(calls: seq<Call>, j: nat)
    requires j < |calls| && StableWhileCached(calls)
    ensures OutcomeOf(calls, j) == Fresh(calls, j)
    decreases j
  {
    var name := calls[j].name;
    AskedOrNever(calls, name, j);
    if Asked(calls, name, j) {
      var i :| LastAsk(calls, name, i, j);
      StableMeansFresh(calls, i);
      if name != "" {
        AnswerRepeatsOrIsFresh(calls, i, j);
      }
    } else {
      NeverAsked(calls, name, j);
    }
  }

  // Caching is invisible over a whole history if and only if the disk is stable while cached.
  lemma CacheIsInvisibleIff(calls: seq<Call>)
    ensures (forall j :: 0 <= j < |calls| ==> OutcomeOf(calls, j) == Fresh(calls, j)) <==> StableWhileCached(calls)
  {
    if StableWhileCached(calls) {
      forall j | 0 <= j < |calls| ensures OutcomeOf(calls, j) == Fresh(calls, j) {
        StableMeansFresh(calls, j);
      }
    }
    if forall j :: 0 <= j < |calls| ==> OutcomeOf(calls, j) == Fresh(calls, j) {
      forall i, j | 0 <= i < j < |calls| && calls[j].name != "" && LastAsk(calls, calls[j].name, i, j)
                    && SameWwid(calls, i, j) && Fresh(calls, i).Known?
        ensures Fresh(calls, i) == Fresh(calls, j)
      {
        AnswerRepeatsOrIsFresh(calls, i, j);
        assert OutcomeOf(calls, i) == Fresh(calls, i) && OutcomeOf(calls, j) == Fresh(calls, j);
      }
    }
  }

  // Within a name, equal wwids mean equal attributes.
  ghost predicate WwidDetermines(calls: seq<Call>) {
    forall i, j :: 0 <= i < |calls| && 0 <= j < |calls| && calls[i].name == calls[j].name && SameWwid(calls, i, j)
                   ==> Fresh(calls, i) == Fresh(calls, j)
  }

  // In particular it is when the wwid determines what can be read.
  lemma CacheIsInvisible(calls: seq<Call>, i: nat)
    requires i < |calls| && WwidDetermines(calls)
    ensures OutcomeOf(calls, i) == Fresh(calls, i)
  {
    assert StableWhileCached(calls);
    StableMeansFresh(calls, i);
  }

  // Every ask for this name from i to j saw the same present disk, by its wwid.
  ghost predicate KeepsItsDisk(calls: seq<Call>, i: nat, j: nat)
    requires i <= j < |calls|
  {
    forall k :: i <= k <= j && calls[k].name == calls[i].name ==> SameWwid(calls, i, k)
  }

  lemma PreviousAsk(calls: seq<Call>, i: nat, j: nat) returns (p: nat)
    requires i < j < |calls| && calls[i].name == calls[j].name && KeepsItsDisk(calls, i, j)
    ensures i <= p < j && LastAsk(calls, calls[j].name, p, j) && calls[p].name == calls[i].name
    ensures KeepsItsDisk(calls, i, p) && SameWwid(calls, p, j)
  {
    AskedOrNever(calls, calls[j].name, j);
    p :| LastAsk(calls, calls[j].name, p, j);
    assert SameWwid(calls, i, p) && SameWwid(calls, i, j);
  }

  // An identity once given is given again for as long as the disk keeps its name.
  lemma {:induction false} AnswerSticks(calls: seq<Call>, i: nat, j: nat)
    requires i <= j < |calls| && calls[i].name == calls[j].name != "" && KeepsItsDisk(calls, i, j)
    requires OutcomeOf(calls, i).Known?
    ensures OutcomeOf(calls, j) == OutcomeOf(calls, i)
    decreases j
  {
    if i < j {
      var p := PreviousAsk(calls, i, j);
      AnswerSticks(calls, i, p);
      AnswerRepeatsOrIsFresh(calls, p, j);
    }
  }

  // So a serial whose read failed once, beside a wwid that did not, stays missing at every
  // later ask for as long as the disk keeps its name, whatever those asks could have read.
  lemma FailedSerialReadSticks(calls: seq<Call>, i: nat, j: nat)
    requires i <= j < |calls| && calls[i].name == calls[j].name != "" && KeepsItsDisk(calls, i, j)
    requires !Hit(CacheAfter(calls, i), calls[i].name, calls[i].fs) && SerialOf(calls[i].fs) == (None, true)
    requires NormaliseWwn(TextOf(calls[i].fs.wwid)).Some?
    ensures OutcomeOf(calls, j).Known? && OutcomeOf(calls, j).identity.serial.None?
    ensures SerialOf(calls[j].fs).0.Some? ==> OutcomeOf(calls, j) != Fresh(calls, j)
  {
    assert OutcomeOf(calls, i) == Known(FreshIdentity(calls[i].fs));
    AnswerSticks(calls, i, j);
  }

  // ------------------------------------------------------------------ normal form

  predicate NoSpace(s: string) { forall i :: 0 <= i < |s| ==> !IsSpace(s[i]) }

  lemma {:induction false} FirstWordHasNoSpace(s: string)
    ensures NoSpace(FirstWord(s))
    ensures NoSpace(s) ==> FirstWord(s) == s
  {
    if s != [] {
      FirstWordHasNoSpace(s[1..]);
    }
  }

  lemma StripOfNoSpace(s: string)
    requires NoSpace(s)
    ensures Strip(s) == s
  {
  }

  lemma LowerIsStable(s: string)
    requires NoSpace(s)
    ensures NoSpace(Lower(s)) && Lower(Lower(s)) == Lower(s)
  {
  }

  // Normalising a normalised WWN changes nothing, so both sides of a comparison can be.
  lemma NormaliseIsIdempotent(raw: Option<string>)
    ensures NormaliseWwn(NormaliseWwn(raw)) == NormaliseWwn(raw)
  {
    var once := NormaliseWwn(raw);
    if once.Some? {
      var word := FirstWord(Strip(raw.value));
      FirstWordHasNoSpace(Strip(raw.value));
      var bare := WithoutPrefix(word);
      assert NoSpace(bare);
      StripOfNoSpace(bare);
      LowerIsStable(bare);
      NormalFormStays(Lower(bare));
    }
  }

  lemma NormalFormStays(value: string)
    requires value != "" && NoSpace(value) && Lower(value) == value
    ensures NormaliseWwn(Some("0x" + value)) == Some("0x" + value)
  {
    var s := "0x" + value;
    assert NoSpace(s);
    StripOfNoSpace(s);
    FirstWordHasNoSpace(s);
    assert !HasPrefix(s, "naa.") by {
      if |s| >= 4 {
        assert Lower(s[..4])[0] == '0';
      }
    }
    assert s[2..] == value;
    assert HasPrefix(s, "0x") by {
      assert s[..2] == "0x" && Lower("0x") == "0x";
    }
    StripOfNoSpace(value);
  }

  // ------------------------------------------------------------------ the forms attributes take

  // Tabs, line and page breaks, separators, blanks, and the two of Latin-1.
  lemma SpacesAre(c: char)
    ensures IsSpace(c) <==> c as int in {9, 10, 11, 12, 13, 28, 29, 30, 31, 32, 0x85, 0xA0}
  {
  }

  predicate Blank(s: string) { forall i :: 0 <= i < |s| ==> IsSpace(s[i]) }

  // No white space at either end.
  predicate Trim(s: string) { s != "" ==> !IsSpace(s[0]) && !IsSpace(s[|s| - 1]) }

  lemma {:induction false} LeftBlank(a: string, s: string)
    requires Blank(a) && s != "" && !IsSpace(s[0])
    ensures StripLeft(a + s) == s
  {
    if a == "" {
      assert a + s == s;
    } else {
      assert (a + s)[1..] == a[1..] + s;
      LeftBlank(a[1..], s);
    }
  }

  lemma {:induction false} RightBlank(s: string, b: string)
    requires Blank(b) && s != "" && !IsSpace(s[|s| - 1])
    ensures StripRight(s + b) == s
  {
    if b == "" {
      assert s + b == s;
    } else {
      var c := b[..|b| - 1];
      assert (s + b)[..|s + b| - 1] == s + c;
      RightBlank(s, c);
    }
  }

  // Stripping takes off the white space at both ends, and nothing else.
  lemma StripIs(a: string, s: string, b: string)
    requires Blank(a) && Blank(b) && s != "" && Trim(s)
    ensures Strip(a + s + b) == s
  {
    assert a + s + b == a + (s + b);
    LeftBlank(a, s + b);
    RightBlank(s, b);
  }

  // Lower-casing puts a letter at its own place in the small alphabet and keeps the rest.
  lemma LowerIs(s: string, i: nat)
    requires i < |s|
    ensures if 'A' <= s[i] <= 'Z' then Lower(s)[i] as int - 'a' as int == s[i] as int - 'A' as int
            else Lower(s)[i] == s[i]
  {
  }

  // Every spelling of one WWN has one normal form: with or without one of the four prefixes,
  // in either case, with white space around it or words after it.
  lemma WwnFormIs(prefix: string, id: string, before: string, after: string)
    requires Lower(prefix) in ["naa.", "0x", "eui.", "wwn-"] && id != "" && NoSpace(prefix) && NoSpace(id)
    requires Blank(before) && (after == "" || IsSpace(after[0]))
    ensures NormaliseWwn(Some(before + (prefix + id) + after)) == Some("0x" + Lower(id))
  {
    var word := prefix + id;
    var raw := before + word + after;
    FirstWordOf(before, word, after);
    assert Lower(word[..|prefix|]) == Lower(prefix) by {
      assert word[..|prefix|] == prefix;
    }
    PrefixIsTakenOff(prefix, id);
    StripOfNoSpace(id);
  }

  lemma PrefixIsTakenOff(prefix: string, id: string)
    requires Lower(prefix) in ["naa.", "0x", "eui.", "wwn-"]
    ensures WithoutPrefix(prefix + id) == id
  {
    var word := prefix + id;
    assert word[..|prefix|] == prefix && word[|prefix|..] == id;
    assert |Lower(prefix)| == |prefix| && Lower(prefix)[0] == LowerChar(word[0]);
    forall other | other in ["naa.", "0x", "eui.", "wwn-"] && HasPrefix(word, other) ensures other == Lower(prefix) {
      assert Lower(word[..|other|])[0] == LowerChar(word[0]);
      assert other[0] == Lower(prefix)[0];
    }
  }

  // A WWN in none of those spellings keeps all its characters.
  lemma BareWwnFormIs(id: string)
    requires id != "" && NoSpace(id)
    requires forall n :: 0 <= n <= |id| ==> Lower(id[..n]) !in ["naa.", "0x", "eui.", "wwn-"]
    ensures NormaliseWwn(Some(id)) == Some("0x" + Lower(id))
  {
    StripOfNoSpace(id);
    FirstWordHasNoSpace(id);
    assert WithoutPrefix(id) == id by {
      assert !HasPrefix(id, "naa.") && !HasPrefix(id, "0x") && !HasPrefix(id, "eui.") && !HasPrefix(id, "wwn-");
    }
  }

  lemma {:induction false} WordThenSpace(word: string, rest: string)
    requires NoSpace(word) && (rest == "" || IsSpace(rest[0]))
    ensures FirstWord(word + rest) == word
  {
    if word == "" {
      assert word + rest == rest;
    } else {
      assert (word + rest)[1..] == word[1..] + rest;
      WordThenSpace(word[1..], rest);
    }
  }

  lemma {:induction false} StripRightKeeps(word: string, rest: string) returns (kept: string)
    requires word != "" && NoSpace(word) && (rest == "" || IsSpace(rest[0]))
    ensures StripRight(word + rest) == word + kept && (kept == "" || IsSpace(kept[0]))
  {
    kept := rest;
    var s := word + rest;
    if rest != "" && IsSpace(rest[|rest| - 1]) {
      assert s[..|s| - 1] == word + rest[..|rest| - 1];
      kept := StripRightKeeps(word, rest[..|rest| - 1]);
    } else if rest == "" {
      assert s == word;
    }
  }

  lemma FirstWordOf(before: string, word: string, after: string)
    requires Blank(before) && word != "" && NoSpace(word) && (after == "" || IsSpace(after[0]))
    ensures FirstWord(Strip(before + word + after)) == word
  {
    assert before + word + after == before + (word + after);
    LeftBlank(before, word + after);
    var kept := StripRightKeeps(word, after);
    WordThenSpace(word, kept);
  }

  // Decimal notation, as the kernel prints sizes.
  function Decimal(n: nat): (s: string)
    ensures Digits(s)
  {
    var last := [('0' as int + n % 10) as char];
    if n < 10 then last else Decimal(n / 10) + last
  }

  lemma {:induction false} NumberOfDecimal(n: nat)
    ensures Number(Decimal(n)) == n
  {
    var last := [('0' as int + n % 10) as char];
    if n < 10 {
      assert last[..0] == "";
    } else {
      NumberOfDecimal(n / 10);
      assert (Decimal(n / 10) + last)[..|Decimal(n / 10)|] == Decimal(n / 10);
    }
  }

  lemma AttributeTextIs(text: string, after: string)
    requires text != "" && Trim(text) && Blank(after)
    ensures TextOf(Content(text + after)) == Some(text)
  {
    StripIs("", text, after);
    assert "" + text + after == text + after;
  }

  // The size attribute counts sectors of 512 bytes; the rotation flag is 0 or 1 and nothing
  // else is believed.
  lemma SizeAndRotationAre(fs: Sysfs, sectors: nat, flag: string, after: string)
    requires Blank(after) && fs.size == Content(Decimal(sectors) + after)
    requires flag != "" && Trim(flag) && fs.rotational == Content(flag + after)
    ensures FreshIdentity(fs).sizeBytes == Some(512 * sectors)
    ensures FreshIdentity(fs).rotational == if flag == "0" then Some(false) else if flag == "1" then Some(true) else None
  {
    NumberOfDecimal(sectors);
    AttributeTextIs(Decimal(sectors), after);
    AttributeTextIs(flag, after);
  }

  // The model carries the vendor before it, unless it already starts with it or one is missing.
  lemma ModelIs(fs: Sysfs, vendor: string, model: string, after: string)
    requires vendor != "" && Trim(vendor) && model != "" && Trim(model) && Blank(after)
    requires fs.model == Content(model + after)
    ensures fs.vendor == Content(vendor + after) && !(vendor <= model) ==>
              FreshIdentity(fs).model == Some(vendor + " " + model)
    ensures fs.vendor == Content(vendor + after) && vendor <= model ==> FreshIdentity(fs).model == Some(model)
    ensures !fs.vendor.Content? ==> FreshIdentity(fs).model == Some(model)
  {
    AttributeTextIs(vendor, after);
    AttributeTextIs(model, after);
    StripIs("", vendor + " " + model, "");
    assert "" + (vendor + " " + model) + "" == vendor + " " + model;
    assert StartsWith(model, vendor) <==> vendor <= model;
  }

  // The serial is the printable text after the four header bytes of the unit serial page, and
  // the serial attribute only where the page has none.
  lemma SerialIs(fs: Sysfs, header: string, text: string, other: string, after: string)
    requires |header| == 4 && text != "" && Trim(text) && (forall i :: 0 <= i < |text| ==> ' ' <= text[i] <= '~')
    requires other != "" && Trim(other) && Blank(after)
    ensures fs.vpd == Content(header + text) ==> FreshIdentity(fs).serial == Some(text)
    ensures (!fs.vpd.Content? || fs.vpd == Content(header)) && fs.serial == Content(other + after) ==>
              FreshIdentity(fs).serial == Some(other)
  {
    assert (header + text)[4..] == text;
    PrintableStays(text);
    StripIs("", text, "");
    assert "" + text + "" == text;
    AttributeTextIs(other, after);
  }

  lemma {:induction false} PrintableStays(s: string)
    requires forall i :: 0 <= i < |s| ==> ' ' <= s[i] <= '~'
    ensures Printable(s) == s
  {
    if s != "" {
      PrintableStays(s[1..]);
    }
  }

  // A present disk is called unreadable exactly when it shows no identifier and one of the
  // three attributes that could have shown one was refused rather than missing.
  lemma UnreadableIff(fs: Sysfs)
    ensures Uncached(fs) == Unreadable <==>
              && fs.present && FreshIdentity(fs).wwn.None? && FreshIdentity(fs).serial.None?
              && (fs.wwid.IoError? || fs.vpd.IoError? || fs.serial.IoError?)
  {
  }
}
