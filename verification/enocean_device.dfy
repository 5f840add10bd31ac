/** The device-level logic of an EnOcean device (`EnoceanDevice`): channel
    handlers numbered in insertion order, presence as the liveness of all
    channels, the pending-output-update flag that defers radio transmissions
    for devices that only listen right after they sent something, and the
    profile-variant table that lets a device be switched to an
    interchangeable EnOcean Equipment Profile (EEP). */
module EnoceanDevice {
  import opened Basics
  import opened ApiValue

  // ---------------------------------------------------------------------
  // Channels
  // ---------------------------------------------------------------------

  /** Identity of a behaviour object (compared by pointer in the source). */
  datatype BehaviourId = BehaviourId(id: nat)

  /** A channel handler: its channel number, its behaviour, and what its
      `isAlive()` currently answers. */
  datatype ChannelHandler = ChannelHandler(channel: nat, behaviour: BehaviourId, alive: bool)

  /** The state of one device that the modelled operations read and write. */
  datatype Device = Device(
    channels: seq<ChannelHandler>,
    behaviours: seq<BehaviourId>,
    pendingDeviceUpdate: bool,
    alwaysUpdateable: bool,
    updateAtEveryReceive: bool,
    lastRSSI: int,
    lastRepeaterCount: int)

  /** Channels are numbered 0..n-1 in the order they were added. */
  predicate NumberedInOrder(chs: seq<ChannelHandler>)
  {
    forall i :: 0 <= i < |chs| ==> chs[i].channel == i
  }

  /** `addChannelHandler`: the new handler gets the number of handlers before
      it, is appended, and its behaviour is registered with the device. */
  function AddChannelHandler(d: Device, h: ChannelHandler): (r: Device)
    ensures |r.channels| == |d.channels| + 1 && r.channels[..|d.channels|] == d.channels
    ensures r.channels[|d.channels|] == h.(channel := |d.channels|)
    ensures r.behaviours == d.behaviours + [h.behaviour]
    ensures NumberedInOrder(d.channels) ==> NumberedInOrder(r.channels)
    ensures r.pendingDeviceUpdate == d.pendingDeviceUpdate
  {
    d.(channels := d.channels + [h.(channel := |d.channels|)], behaviours := d.behaviours + [h.behaviour])
  }

  /** Adding handlers one after another. */
  function AddChannelHandlers(d: Device, hs: seq<ChannelHandler>): Device
    decreases |hs|
  {
    if |hs| == 0 then d else AddChannelHandlers(AddChannelHandler(d, hs[0]), hs[1..])
  }

  /** Starting without channels, the i-th added handler is channel i and keeps its behaviour. */
  lemma {:induction false} AddChannelHandlersNumbers(d: Device, hs: seq<ChannelHandler>)
    requires NumberedInOrder(d.channels)
    ensures var r := AddChannelHandlers(d, hs);
      |r.channels| == |d.channels| + |hs| && NumberedInOrder(r.channels) &&
      r.channels[..|d.channels|] == d.channels &&
      forall i :: 0 <= i < |hs| ==> r.channels[|d.channels| + i].behaviour == hs[i].behaviour
    decreases |hs|
  {
    if |hs| > 0 {
      var d1 := AddChannelHandler(d, hs[0]);
      AddChannelHandlersNumbers(d1, hs[1..]);
      var r := AddChannelHandlers(d1, hs[1..]);
      assert r.channels[..|d.channels|] == r.channels[..|d1.channels|][..|d.channels|];
      forall i | 0 <= i < |hs|
        ensures r.channels[|d.channels| + i].behaviour == hs[i].behaviour
      {
        if i == 0 {
          assert r.channels[|d.channels|] == r.channels[..|d1.channels|][|d.channels|];
        } else {
          assert hs[i] == hs[1..][i - 1];
        }
      }
    }
  }

  /** `channelForBehaviour`: the first handler whose behaviour is the given one, if any. */
  method ChannelForBehaviour(chs: seq<ChannelHandler>, b: BehaviourId) returns (r: Option<ChannelHandler>)
    ensures r.Some? <==> exists i :: 0 <= i < |chs| && chs[i].behaviour == b
    ensures r.Some? ==> exists i :: (0 <= i < |chs| && chs[i] == r.value && chs[i].behaviour == b &&
      forall j :: 0 <= j < i ==> chs[j].behaviour != b)
  {
    r := None;
    var i := 0;
    while i < |chs|
      invariant 0 <= i <= |chs|
      invariant forall j :: 0 <= j < i ==> chs[j].behaviour != b
    {
      if chs[i].behaviour == b {
        r := Some(chs[i]);
        return;
      }
      i := i + 1;
    }
  }

  /** `checkPresence`: present unless some channel is not alive. */
  method CheckPresence(chs: seq<ChannelHandler>) returns (present: bool)
    ensures present <==> forall i :: 0 <= i < |chs| ==> chs[i].alive
  {
    present := true;
    var i := 0;
    while i < |chs|
      invariant 0 <= i <= |chs|
      invariant forall j :: 0 <= j < i ==> chs[j].alive
    {
      if !chs[i].alive {
        present := false;
        return;
      }
      i := i + 1;
    }
  }

  // ---------------------------------------------------------------------
  // The pending-output-update flag
  // ---------------------------------------------------------------------

  /** What a transmission attempt did: whether it ran at all (the flag was
      set) and whether a packet went out (some channel contributed data). */
  datatype UpdateResult = UpdateResult(device: Device, attempted: bool, sent: bool)

  /** `sendOutgoingUpdate`: only with the flag set; the flag is cleared before
      the channels are asked for data. `collected` is whether any channel
      handler contributed data to a packet. */
  function SendOutgoingUpdate(d: Device, collected: bool): (r: UpdateResult)
    ensures r.attempted <==> d.pendingDeviceUpdate
    ensures r.sent <==> d.pendingDeviceUpdate && collected
    ensures !r.device.pendingDeviceUpdate
    ensures r.device == d.(pendingDeviceUpdate := false)
  {
    if d.pendingDeviceUpdate then UpdateResult(d.(pendingDeviceUpdate := false), true, collected)
    else UpdateResult(d, false, false)
  }

  /** `needOutgoingUpdate`: always flag; transmit right away only when the device is always updateable. */
  function NeedOutgoingUpdate(d: Device, collected: bool): (r: UpdateResult)
    ensures r.attempted <==> d.alwaysUpdateable
    ensures r.sent <==> d.alwaysUpdateable && collected
    ensures r.device.pendingDeviceUpdate <==> !d.alwaysUpdateable
    ensures r.device.channels == d.channels && r.device.alwaysUpdateable == d.alwaysUpdateable
    ensures r.device.updateAtEveryReceive == d.updateAtEveryReceive
  {
    var d1 := d.(pendingDeviceUpdate := true);
    if d.alwaysUpdateable then SendOutgoingUpdate(d1, collected)
    else UpdateResult(d1, false, false)
  }

  /** The parts of a received radio telegram the device records. */
  datatype RadioPacket = RadioPacket(dBm: int, repeaterCount: int)

  /** `handleRadioPacket`: record signal data, let the channels see the packet,
      then transmit the pending update, forcing the flag first when the device
      wants an update after every received telegram. */
  function HandleRadioPacket(d: Device, p: RadioPacket, collected: bool): (r: UpdateResult)
    ensures r.attempted <==> d.pendingDeviceUpdate || d.updateAtEveryReceive
    ensures r.sent <==> (d.pendingDeviceUpdate || d.updateAtEveryReceive) && collected
    ensures !r.device.pendingDeviceUpdate
    ensures r.device.lastRSSI == p.dBm && r.device.lastRepeaterCount == p.repeaterCount
    ensures r.device.channels == d.channels
  {
    var d1 := d.(lastRSSI := p.dBm, lastRepeaterCount := p.repeaterCount);
    if d1.pendingDeviceUpdate || d1.updateAtEveryReceive then
      SendOutgoingUpdate(d1.(pendingDeviceUpdate := true), collected)
    else UpdateResult(d1, false, false)
  }

  /** `applyChannelValues`: flag an update when any output channel needs one
      (`needsUpdate[i]` says whether channel i does) or one is already
      pending, and in that case go through `needOutgoingUpdate`. */
  function ApplyChannelValues(d: Device, needsUpdate: seq<bool>, collected: bool): (r: UpdateResult)
    ensures var wanted := d.pendingDeviceUpdate || (exists i :: 0 <= i < |needsUpdate| && needsUpdate[i]);
      (wanted ==> r == NeedOutgoingUpdate(d, collected)) &&
      (!wanted ==> r == UpdateResult(d, false, false))
  {
    var any := exists i :: 0 <= i < |needsUpdate| && needsUpdate[i];
    var d1 := if any then d.(pendingDeviceUpdate := true) else d;
    if d1.pendingDeviceUpdate then NeedOutgoingUpdate(d1, collected)
    else UpdateResult(d1, false, false)
  }

  /** An update requested on a device that cannot be updated at any time is
      not lost: it waits for the next received telegram, which transmits it. */
  lemma DeferredUpdateSentOnNextPacket(d: Device, p: RadioPacket, c1: bool, c2: bool)
    requires !d.alwaysUpdateable
    ensures var n := NeedOutgoingUpdate(d, c1);
      !n.attempted && n.device.pendingDeviceUpdate &&
      HandleRadioPacket(n.device, p, c2).attempted &&
      !HandleRadioPacket(n.device, p, c2).device.pendingDeviceUpdate
  {
  }

  /** Sending clears the request: a second transmission attempt right after does nothing. */
  lemma SendOutgoingUpdateOnce(d: Device, c1: bool, c2: bool)
    ensures !SendOutgoingUpdate(SendOutgoingUpdate(d, c1).device, c2).attempted
  {
  }

  // ---------------------------------------------------------------------
  // Profile variants
  // ---------------------------------------------------------------------

  /** One row of a device class's profile-variant table; `profileGroup` 0 terminates the table. */
  datatype ProfileVariantEntry = ProfileVariantEntry(profileGroup: int, eep: uint32, subDeviceIndices: nat, description: string)

  /** The rows before the terminator (all of them if there is none). */
  function UpToTerminator(es: seq<ProfileVariantEntry>): (live: seq<ProfileVariantEntry>)
    ensures live <= es
    ensures forall i :: 0 <= i < |live| ==> live[i].profileGroup != 0
    ensures |live| < |es| ==> es[|live|].profileGroup == 0
  {
    if |es| == 0 || es[0].profileGroup == 0 then [] else [es[0]] + UpToTerminator(es[1..])
  }

  /** The rows a table pointer gives access to; a null table has none. */
  function LiveEntries(table: Option<seq<ProfileVariantEntry>>): (live: seq<ProfileVariantEntry>)
    ensures table.None? ==> live == []
    ensures forall i :: 0 <= i < |live| ==> live[i].profileGroup != 0
  {
    if table.Some? then UpToTerminator(table.value) else []
  }

  /** The index of the first row with the given EEP. */
  function FindEep(live: seq<ProfileVariantEntry>, eep: uint32): (r: Option<nat>)
    ensures r.Some? ==> (r.value < |live| && live[r.value].eep == eep &&
      forall j :: 0 <= j < r.value ==> live[j].eep != eep)
    ensures r.None? <==> forall j :: 0 <= j < |live| ==> live[j].eep != eep
    decreases |live|
  {
    if |live| == 0 then None
    else if live[0].eep == eep then Some(0)
    else
      var rest := FindEep(live[1..], eep);
      if rest.Some? then Some(rest.value + 1) else None
  }

  /** The object key of a variant: its EEP printed with `%d`, i.e. read as a signed 32-bit integer. */
  function EepKey(eep: uint32): string
  {
    IntToDecimal(Int32Of(eep))
  }

  /** The keys of all rows in a group. */
  function GroupKeys(live: seq<ProfileVariantEntry>, g: int): set<string>
  {
    set j | 0 <= j < |live| && live[j].profileGroup == g :: EepKey(live[j].eep)
  }

  /** `newString`: a string value holding `s`. */
  function NewString(s: string): (v: Value)
    ensures v.declared == StringKind && Consistent(v) && CharPointerValue(v) == Some(s)
  {
    SetStringValue(NewValue(StringKind), s).1
  }

  /** Reference reading of the object built from group `g`: the description
      of the LAST row of the group whose key is `key`, since a later `add`
      under the same key overwrites an earlier one. */
  function LastVariant(live: seq<ProfileVariantEntry>, g: int, key: string): Option<string>
    decreases |live|
  {
    if |live| == 0 then None
    else
      var later := LastVariant(live[1..], g, key);
      if later.Some? then later
      else if live[0].profileGroup == g && EepKey(live[0].eep) == key then Some(live[0].description)
      else None
  }

  /** Add every row of group `g` to the object, keyed by its EEP, holding its description. */
  function AddVariants(obj: Value, live: seq<ProfileVariantEntry>, g: int): (r: Value)
    requires Consistent(obj)
    ensures Consistent(r) && r.declared == obj.declared
    ensures obj.declared == ObjectKind ==> forall k :: LowerCase(k) in GroupKeys(live, g) ==> Get(r, k).Some?
    ensures forall k :: LowerCase(k) !in GroupKeys(live, g) ==> Get(r, k) == Get(obj, k)
    ensures obj.declared == ObjectKind ==> forall k ::
      Get(r, k) == (if LastVariant(live, g, LowerCase(k)).Some? then Some(NewString(LastVariant(live, g, LowerCase(k)).value)) else Get(obj, k))
    decreases |live|
  {
    if |live| == 0 then obj
    else
      var obj1 := if live[0].profileGroup == g then Add(obj, EepKey(live[0].eep), Some(NewString(live[0].description))) else obj;
      var r := AddVariants(obj1, live[1..], g);
      AddVariantsKeys(live, g);
      LowerCaseOfDecimal(Int32Of(live[0].eep));
      r
  }

  /** The reference reading holds exactly the group's keys, each with the
      description of the last row of the group that carries it. */
  lemma {:induction false} LastVariantIsLastRow(live: seq<ProfileVariantEntry>, g: int, key: string)
    ensures LastVariant(live, g, key).Some? <==> key in GroupKeys(live, g)
    ensures LastVariant(live, g, key).Some? ==> exists j :: (0 <= j < |live| && live[j].profileGroup == g &&
      EepKey(live[j].eep) == key && LastVariant(live, g, key) == Some(live[j].description) &&
      forall j' :: j < j' < |live| && live[j'].profileGroup == g ==> EepKey(live[j'].eep) != key)
    decreases |live|
  {
    if |live| > 0 {
      LastVariantIsLastRow(live[1..], g, key);
      AddVariantsKeys(live, g);
      if LastVariant(live[1..], g, key).Some? {
        var j :| 0 <= j < |live[1..]| && live[1..][j].profileGroup == g && EepKey(live[1..][j].eep) == key &&
          LastVariant(live[1..], g, key) == Some(live[1..][j].description) &&
          forall j' :: j < j' < |live[1..]| && live[1..][j'].profileGroup == g ==> EepKey(live[1..][j'].eep) != key;
        assert live[j + 1] == live[1..][j];
        forall j' | j + 1 < j' < |live| && live[j'].profileGroup == g
          ensures EepKey(live[j'].eep) != key
        {
          assert live[j'] == live[1..][j' - 1];
        }
      } else if LastVariant(live, g, key).Some? {
        forall j' | 0 < j' < |live| && live[j'].profileGroup == g
          ensures EepKey(live[j'].eep) != key
        {
          assert live[j'] == live[1..][j' - 1];
        }
      }
    }
  }

  /** Group keys split into the first row's key and the rest's. */
  lemma AddVariantsKeys(live: seq<ProfileVariantEntry>, g: int)
    requires |live| > 0
    ensures GroupKeys(live, g) == GroupKeys(live[1..], g) + (if live[0].profileGroup == g then {EepKey(live[0].eep)} else {})
  {
    var a, b := GroupKeys(live, g), GroupKeys(live[1..], g) + (if live[0].profileGroup == g then {EepKey(live[0].eep)} else {});
    forall k | k in a ensures k in b {
      var j :| 0 <= j < |live| && live[j].profileGroup == g && EepKey(live[j].eep) == k;
      if j > 0 {
        assert live[1..][j - 1] == live[j];
      }
    }
    forall k | k in b ensures k in a {
      if k in GroupKeys(live[1..], g) {
        var j :| 0 <= j < |live[1..]| && live[1..][j].profileGroup == g && EepKey(live[1..][j].eep) == k;
        assert live[j + 1] == live[1..][j];
      }
    }
  }

  /** Whether the group of the current EEP's first row contains another EEP. */
  predicate HasOtherVariant(live: seq<ProfileVariantEntry>, g: int, current: uint32)
  {
    exists j :: 0 <= j < |live| && live[j].profileGroup == g && live[j].eep != current
  }

  /** `getProfileVariants`: when the current EEP is in the table, add every
      member of its (first) group to the object and report whether there is a
      member other than the current EEP; otherwise add nothing and report false. */
  function GetProfileVariants(current: uint32, table: Option<seq<ProfileVariantEntry>>, obj: Value): (r: (bool, Value))
    requires Consistent(obj)
    ensures var live := LiveEntries(table);
      var at := FindEep(live, current);
      (at.None? ==> r == (false, obj)) &&
      (at.Some? ==>
        var g := live[at.value].profileGroup;
        (r.0 <==> HasOtherVariant(live, g, current)) &&
        (obj.declared == ObjectKind ==> forall k :: LowerCase(k) in GroupKeys(live, g) ==> Get(r.1, k).Some?) &&
        (obj.declared == ObjectKind ==> forall k ::
          Get(r.1, k) == (if LastVariant(live, g, LowerCase(k)).Some? then Some(NewString(LastVariant(live, g, LowerCase(k)).value)) else Get(obj, k))) &&
        (forall k :: LowerCase(k) !in GroupKeys(live, g) ==> Get(r.1, k) == Get(obj, k)))
    ensures Consistent(r.1) && r.1.declared == obj.declared
  {
    var live := LiveEntries(table);
    var at := FindEep(live, current);
    if at.None? then (false, obj)
    else
      var g := live[at.value].profileGroup;
      var any := exists j :: 0 <= j < |live| && live[j].profileGroup == g && live[j].eep != current;
      (any, AddVariants(obj, live, g))
  }

  /** The current EEP is in the table, but alone in its group: no variants, though the object gets its own entry. */
  lemma SingletonGroupHasNoVariants(current: uint32, desc: string, obj: Value)
    requires Consistent(obj) && obj.declared == ObjectKind
    ensures var table := Some([ProfileVariantEntry(1, current, 0, desc), ProfileVariantEntry(0, 0, 0, "")]);
      var r := GetProfileVariants(current, table, obj);
      !r.0 && Get(r.1, EepKey(current)).Some?
  {
    var table := [ProfileVariantEntry(1, current, 0, desc), ProfileVariantEntry(0, 0, 0, "")];
    var live := LiveEntries(Some(table));
    assert live == [table[0]] by {
      assert UpToTerminator(table[1..]) == [];
    }
    assert EepKey(current) in GroupKeys(live, 1);
    LowerCaseOfDecimal(Int32Of(current));
  }

  /** Distinct EEPs get distinct object keys. */
  lemma EepKeysDistinct(a: uint32, b: uint32)
    requires a != b
    ensures EepKey(a) != EepKey(b)
  {
    assert Int32Of(a) != Int32Of(b);
    if EepKey(a) == EepKey(b) {
      IntToDecimalInjective(Int32Of(a), Int32Of(b));
    }
  }

  /** A profile switch: from which row to which row. */
  datatype ProfileChange = Unchanged | SwitchTo(from: ProfileVariantEntry, to: ProfileVariantEntry)

  /** The index of the first row of `live` in group `g` with EEP `p` (the inner loop of `setProfileVariant`). */
  function FindInGroup(live: seq<ProfileVariantEntry>, g: int, p: uint32): (r: Option<nat>)
    ensures r.Some? ==> (r.value < |live| && live[r.value].profileGroup == g && live[r.value].eep == p &&
      forall j :: 0 <= j < r.value ==> !(live[j].profileGroup == g && live[j].eep == p))
    ensures r.None? <==> forall j :: 0 <= j < |live| ==> !(live[j].profileGroup == g && live[j].eep == p)
    decreases |live|
  {
    if |live| == 0 then None
    else if live[0].profileGroup == g && live[0].eep == p then Some(0)
    else
      var rest := FindInGroup(live[1..], g, p);
      if rest.Some? then Some(rest.value + 1) else None
  }

  /** The pair of rows the nested loops of `setProfileVariant` settle on when
      the outer loop starts at row `i`: `c` is the first row from `i` on with
      the current EEP whose group holds a row for `p`, and `v` is the first
      row of that group with EEP `p`. */
  predicate FirstSwitchPair(live: seq<ProfileVariantEntry>, i: nat, current: uint32, p: uint32, c: nat, v: nat)
  {
    && i <= c < |live| && v < |live|
    && live[c].eep == current && live[v].profileGroup == live[c].profileGroup && live[v].eep == p
    && (forall c', v' :: (i <= c' < c && 0 <= v' < |live| && live[c'].eep == current) ==>
          !(live[v'].profileGroup == live[c'].profileGroup && live[v'].eep == p))
    && (forall v' :: 0 <= v' < v ==> !(live[v'].profileGroup == live[c].profileGroup && live[v'].eep == p))
  }

  /** The first pair is determined by the table: no two different pairs are both first. */
  lemma FirstSwitchPairUnique(live: seq<ProfileVariantEntry>, i: nat, current: uint32, p: uint32, c1: nat, v1: nat, c2: nat, v2: nat)
    requires FirstSwitchPair(live, i, current, p, c1, v1) && FirstSwitchPair(live, i, current, p, c2, v2)
    ensures c1 == c2 && v1 == v2
  {
  }

  /** The outer loop of `setProfileVariant` from row `i` on: every row with the
      current EEP is tried, and the first one whose group holds `p` decides. */
  function SearchSwitch(live: seq<ProfileVariantEntry>, i: nat, current: uint32, p: uint32): (r: Option<(nat, nat)>)
    requires i <= |live|
    ensures r.Some? <==> exists c, v :: (i <= c < |live| && 0 <= v < |live| &&
      live[c].eep == current && live[v].profileGroup == live[c].profileGroup && live[v].eep == p)
    ensures r.Some? ==> FirstSwitchPair(live, i, current, p, r.value.0, r.value.1)
    decreases |live| - i
  {
    if i == |live| then None
    else if live[i].eep == current && FindInGroup(live, live[i].profileGroup, p).Some? then
      Some((i, FindInGroup(live, live[i].profileGroup, p).value))
    else
      SearchSwitch(live, i + 1, current, p)
  }

  /** `setProfileVariant`: the current EEP is accepted as is; another EEP is
      accepted, and the switch performed, exactly when some row with the
      current EEP shares its group with a row for the requested EEP; the
      switch is between the first such pair of rows. */
  function SetProfileVariant(current: uint32, table: Option<seq<ProfileVariantEntry>>, p: uint32): (r: (bool, ProfileChange))
    ensures p == current ==> r == (true, Unchanged)
    ensures p != current ==>
      var live := LiveEntries(table);
      (r.0 <==> exists c, v :: (0 <= c < |live| && 0 <= v < |live| &&
        live[c].eep == current && live[v].profileGroup == live[c].profileGroup && live[v].eep == p)) &&
      (r.0 <==> r.1.SwitchTo?)
    ensures r.1.SwitchTo? ==> (r.1.from.eep == current && r.1.to.eep == p && r.1.from.profileGroup == r.1.to.profileGroup &&
      r.1.from in LiveEntries(table) && r.1.to in LiveEntries(table))
    ensures r.1.SwitchTo? ==> exists c: nat, v: nat :: (FirstSwitchPair(LiveEntries(table), 0, current, p, c, v) &&
      r.1.from == LiveEntries(table)[c] && r.1.to == LiveEntries(table)[v])
  {
    if p == current then (true, Unchanged)
    else
      var live := LiveEntries(table);
      var found := SearchSwitch(live, 0, current, p);
      if found.Some? then (true, SwitchTo(live[found.value.0], live[found.value.1])) else (false, Unchanged)
  }

  /** A device whose EEP is not in the table cannot switch to any other EEP. */
  lemma UnlistedProfileCannotSwitch(current: uint32, table: Option<seq<ProfileVariantEntry>>, p: uint32)
    requires p != current
    requires forall j :: 0 <= j < |LiveEntries(table)| ==> LiveEntries(table)[j].eep != current
    ensures !SetProfileVariant(current, table, p).0
  {
  }

  /** When the current EEP is listed in one group only, every EEP that
      `setProfileVariant` accepts (other than the current one) is among the
      variants `getProfileVariants` reports, and the reported flag is set. */
  lemma SwitchTargetsAreOfferedVariants(current: uint32, table: Option<seq<ProfileVariantEntry>>, p: uint32, obj: Value)
    requires Consistent(obj) && obj.declared == ObjectKind && p != current
    requires forall i, j :: (0 <= i < |LiveEntries(table)| && 0 <= j < |LiveEntries(table)| &&
      LiveEntries(table)[i].eep == current && LiveEntries(table)[j].eep == current) ==>
      LiveEntries(table)[i].profileGroup == LiveEntries(table)[j].profileGroup
    requires SetProfileVariant(current, table, p).0
    ensures GetProfileVariants(current, table, obj).0
    ensures Get(GetProfileVariants(current, table, obj).1, EepKey(p)).Some?
  {
    var live := LiveEntries(table);
    var c, v :| 0 <= c < |live| && 0 <= v < |live| && live[c].eep == current &&
      live[v].profileGroup == live[c].profileGroup && live[v].eep == p;
    var at := FindEep(live, current);
    assert live[at.value].profileGroup == live[c].profileGroup;
    assert HasOtherVariant(live, live[at.value].profileGroup, current);
    assert EepKey(p) in GroupKeys(live, live[c].profileGroup);
    LowerCaseOfDecimal(Int32Of(p));
  }

  /** With the current EEP listed in two groups, only the first group's
      variants are reported, yet `setProfileVariant` accepts the second's. */
  lemma SecondGroupAcceptedButNotOffered(obj: Value)
    requires Consistent(obj) && obj.declared == ObjectKind
    ensures var table := Some([ProfileVariantEntry(1, 10, 0, "a"), ProfileVariantEntry(2, 10, 0, "b"),
                               ProfileVariantEntry(2, 20, 0, "c"), ProfileVariantEntry(0, 0, 0, "")]);
      SetProfileVariant(10, table, 20).0 && !GetProfileVariants(10, table, obj).0
  {
    var t := [ProfileVariantEntry(1, 10, 0, "a"), ProfileVariantEntry(2, 10, 0, "b"),
              ProfileVariantEntry(2, 20, 0, "c"), ProfileVariantEntry(0, 0, 0, "")];
    var live := LiveEntries(Some(t));
    assert live == t[..3] by {
      assert UpToTerminator(t[3..]) == [];
      assert UpToTerminator(t[2..]) == [t[2]] + UpToTerminator(t[3..]);
      assert UpToTerminator(t[1..]) == [t[1]] + UpToTerminator(t[2..]);
    }
    assert live[1].eep == 10 && live[2].profileGroup == live[1].profileGroup && live[2].eep == 20;
    assert FindEep(live, 10) == Some(0);
    assert !HasOtherVariant(live, 1, 10);
  }

  // ---------------------------------------------------------------------
  // Sub-device range of a profile switch
  // ---------------------------------------------------------------------

  /** `switchProfiles`' range: when both variants cover the same non-zero
      number of sub-device indices, only the aligned block of that size
      holding this sub-device is replaced; otherwise (size 0) all are. */
  function SwitchRange(from: ProfileVariantEntry, to: ProfileVariantEntry, subDevice: nat): (r: (nat, nat))
    ensures r.1 != 0 <==> from.subDeviceIndices != 0 && to.subDeviceIndices == from.subDeviceIndices
    ensures r.1 != 0 ==> r.1 == to.subDeviceIndices && r.0 % r.1 == 0 && r.0 <= subDevice < r.0 + r.1
    ensures r.1 == 0 ==> r.0 == 0
  {
    if from.subDeviceIndices != 0 && to.subDeviceIndices == from.subDeviceIndices then
      var size := to.subDeviceIndices;
      RoundDown(subDevice, size);
      (subDevice / size * size, size)
    else (0, 0)
  }

  /** Rounding down to a multiple of n lands within n below. */
  lemma RoundDown(x: nat, n: nat)
    requires n > 0
    ensures (x / n * n) % n == 0 && x / n * n <= x < x / n * n + n
  {
    var q := x / n;
    assert x == q * n + x % n;
    MultipleMod(q, n);
  }

  /** A multiple of n leaves no remainder. A helper of `RoundDown`'s proof. */
  lemma MultipleMod(q: nat, n: nat)
    requires n > 0
    ensures (q * n) % n == 0
  {
    var m := q * n;
    var q', r' := m / n, m % n;
    assert m == q' * n + r';
    Distribute(q, q', n);
    if q' < q {
      AtLeastOnce(q - q', n);
    } else if q' > q {
      Distribute(q', q, n);
      AtLeastOnce(q' - q, n);
    }
  }

  /** Multiplication distributes over a difference (a helper of `MultipleMod`). */
  lemma Distribute(a: int, b: int, n: int)
    ensures (a - b) * n == a * n - b * n
  {
  }

  /** A positive multiple of n is at least n (a helper of `MultipleMod`). */
  lemma AtLeastOnce(k: int, n: nat)
    requires k >= 1
    ensures k * n >= n
  {
  }
}
