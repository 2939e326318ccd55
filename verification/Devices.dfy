/** The registry of paired devices: its file, and every change made to it. */
module Devices {
  import opened Base

  datatype Device = Device(
    id: string,
    name: string,
    fingerprint: string,
    pairedAt: U64,
    lastSeen: Option<U64>,
    protocol: string,
    revokedAt: Option<U64>)
  {
    predicate IsRevoked() { revokedAt.Some? }
  }

  datatype AuthRefusal = UnknownDevice | RevokedDevice | UnreadableRegistry

  datatype RegistryError = Unreadable | IdTaken | NoDevice | StoreFailed

  // ----- Names --------------------------------------------------------------

  predicate IsControl(c: char) {
    c <= '\U{1F}' || '\U{7F}' <= c <= '\U{9F}'
  }

  predicate Printable(c: char) { !IsControl(c) }

  function TrimStart(s: string): (r: string)
    ensures |r| <= |s| && r == s[|s| - |r|..]
    ensures r == [] || !IsSpace(r[0])
  {
    if s != [] && IsSpace(s[0]) then TrimStart(s[1..]) else s
  }

  function TrimEnd(s: string): (r: string)
    ensures r <= s
    ensures r == [] || !IsSpace(r[|r| - 1])
  {
    if s != [] && IsSpace(s[|s| - 1]) then TrimEnd(s[..|s| - 1]) else s
  }

  const DEFAULT_NAME: string := "Android device"
  const NAME_LENGTH: nat := 64

  /** The name kept for a device: its printable characters, cut to a length and trimmed. */
  function CleanName(name: string): string {
    var printable := Filter(name, Printable);
    var bounded := if |printable| > NAME_LENGTH then printable[..NAME_LENGTH] else printable;
    var trimmed := TrimEnd(TrimStart(bounded));
    if trimmed == [] then DEFAULT_NAME else trimmed
  }

  lemma {:induction false} FilterAll(s: string)
    requires forall c | c in s :: Printable(c)
    ensures Filter(s, Printable) == s
  {
    if s != [] {
      FilterAll(s[..|s| - 1]);
      assert s[|s| - 1] in s;
    }
  }

  /** What every stored name looks like. */
  predicate IsClean(s: string) {
    && 0 < |s| <= NAME_LENGTH
    && !IsSpace(s[0]) && !IsSpace(s[|s| - 1])
    && forall c | c in s :: Printable(c)
  }

  lemma DefaultNameIsClean()
    ensures IsClean(DEFAULT_NAME)
  {
    assert DEFAULT_NAME[0] == 'A' && DEFAULT_NAME[13] == 'e';
  }

  lemma {:induction false} TrimmedIsClean(s: string)
    requires |s| <= NAME_LENGTH && forall c | c in s :: Printable(c)
    ensures var t := TrimEnd(TrimStart(s)); t != [] ==> IsClean(t)
  {
    var left := TrimStart(s);
    var t := TrimEnd(left);
    forall c | c in t
      ensures Printable(c)
    {
      assert c in left && c in s;
    }
    if t != [] {
      assert t[0] == left[0];
    }
  }

  lemma CleanNameIsClean(name: string)
    ensures IsClean(CleanName(name))
  {
    var printable := Filter(name, Printable);
    var bounded := if |printable| > NAME_LENGTH then printable[..NAME_LENGTH] else printable;
    assert forall c | c in bounded :: c in printable;
    TrimmedIsClean(bounded);
    DefaultNameIsClean();
  }

  lemma CleanIsKept(s: string)
    requires IsClean(s)
    ensures CleanName(s) == s
  {
    FilterAll(s);
    assert TrimStart(s) == s && TrimEnd(s) == s;
  }

  /** A clean name stays as it is: cleaning it again on the way into the registry changes nothing. */
  lemma CleanNameIdempotent(name: string)
    ensures CleanName(CleanName(name)) == CleanName(name)
  {
    CleanNameIsClean(name);
    CleanIsKept(CleanName(name));
  }

  // ----- Changes to the list ------------------------------------------------

  function HasId(id: string): Device -> bool { (d: Device) => d.id == id }

  function IsLive(fingerprint: string): Device -> bool {
    (d: Device) => d.fingerprint == fingerprint && !d.IsRevoked()
  }

  function IsRecord(id: string, fingerprint: string): Device -> bool {
    (d: Device) => d.id == id && d.fingerprint == fingerprint && !d.IsRevoked()
  }

  function RevokeLive(fingerprint: string, now: U64): Device -> Device {
    (d: Device) => if d.fingerprint == fingerprint && !d.IsRevoked() then d.(revokedAt := Some(now)) else d
  }

  function NewDevice(id: string, name: string, fingerprint: string, protocol: string, now: U64): Device {
    Device(id, CleanName(name), fingerprint, now, Some(now), protocol, None)
  }

  /** The list once `fingerprint` is trusted under `id`, and its record there. */
  function Enrolled(devices: seq<Device>, id: string, name: string, fingerprint: string, protocol: string, now: U64)
    : Result<(seq<Device>, Device), RegistryError>
  {
    match First(devices, IsRecord(id, fingerprint))
    case Some(i) => Ok((devices, devices[i]))
    case None =>
      if First(devices, HasId(id)).Some? then Err(IdTaken)
      else
        var device := NewDevice(id, name, fingerprint, protocol, now);
        Ok((MapSeq(devices, RevokeLive(fingerprint, now)) + [device], device))
  }

  function Revoked(devices: seq<Device>, id: string, now: U64): Result<(seq<Device>, Device), RegistryError> {
    match First(devices, HasId(id))
    case None => Err(NoDevice)
    case Some(i) =>
      var device := if devices[i].IsRevoked() then devices[i] else devices[i].(revokedAt := Some(now));
      Ok((devices[i := device], device))
  }

  function Renamed(devices: seq<Device>, id: string, name: string): Result<(seq<Device>, Device), RegistryError> {
    match First(devices, HasId(id))
    case None => Err(NoDevice)
    case Some(i) =>
      var device := devices[i].(name := CleanName(name));
      Ok((devices[i := device], device))
  }

  function Touched(devices: seq<Device>, id: string, now: U64): seq<Device> {
    match First(devices, HasId(id))
    case None => devices
    case Some(i) => devices[i := devices[i].(lastSeen := Some(now))]
  }

  /** The newest live record of `fingerprint`; failing that, whether it ever had one. */
  function Authorized(devices: seq<Device>, fingerprint: string): (r: Result<Device, AuthRefusal>)
    ensures r.Ok? ==> r.value in devices && IsLive(fingerprint)(r.value)
    ensures r.Err? ==> forall d | d in devices :: !IsLive(fingerprint)(d)
    ensures r.Err? ==> r.error != UnreadableRegistry
    ensures r.Err? ==> (r.error == RevokedDevice <==> exists d | d in devices :: d.fingerprint == fingerprint)
  {
    if devices == [] then Err(UnknownDevice)
    else
      var earlier, last := devices[..|devices| - 1], devices[|devices| - 1];
      assert devices == earlier + [last];
      if IsLive(fingerprint)(last) then Ok(last)
      else
        match Authorized(earlier, fingerprint)
        case Ok(device) => Ok(device)
        case Err(why) => if last.fingerprint == fingerprint then Err(RevokedDevice) else Err(why)
  }

  predicate LiveAt(devices: seq<Device>, fingerprint: string, i: int) {
    0 <= i < |devices| && devices[i].fingerprint == fingerprint && devices[i].revokedAt.None?
  }

  /** The newest live record of the key is at `i`. */
  predicate NewestAt(devices: seq<Device>, fingerprint: string, i: int) {
    LiveAt(devices, fingerprint, i) && forall j | i < j < |devices| :: !LiveAt(devices, fingerprint, j)
  }

  ghost predicate IsNewest(devices: seq<Device>, fingerprint: string, device: Device) {
    exists i :: NewestAt(devices, fingerprint, i) && devices[i] == device
  }

  lemma NewestMore(devices: seq<Device>, fingerprint: string, device: Device)
    requires devices != []
    ensures var n := |devices| - 1;
      IsNewest(devices, fingerprint, device) <==>
      if LiveAt(devices, fingerprint, n) then devices[n] == device else IsNewest(devices[..n], fingerprint, device)
  {
    var n := |devices| - 1;
    var earlier := devices[..n];
    assert forall j | 0 <= j < n :: LiveAt(earlier, fingerprint, j) <==> LiveAt(devices, fingerprint, j);
    if LiveAt(devices, fingerprint, n) {
      assert NewestAt(devices, fingerprint, n);
    } else {
      assert forall i | i < n :: NewestAt(devices, fingerprint, i) <==> NewestAt(earlier, fingerprint, i);
    }
  }

  /** A key is accepted with exactly its newest live record. */
  lemma {:induction false} AuthorizedIsNewest(devices: seq<Device>, fingerprint: string, device: Device)
    ensures Authorized(devices, fingerprint) == Ok(device) <==> IsNewest(devices, fingerprint, device)
  {
    if devices != [] {
      NewestMore(devices, fingerprint, device);
      AuthorizedIsNewest(devices[..|devices| - 1], fingerprint, device);
    }
  }

  // ----- What a change leaves as it was --------------------------------------

  function Seen(now: U64): Device -> Device { (d: Device) => d.(lastSeen := Some(now)) }

  /** Marked revoked now, unless it was before. */
  function Marked(now: U64): Device -> Device {
    (d: Device) => if d.IsRevoked() then d else d.(revokedAt := Some(now))
  }

  function Named(name: string): Device -> Device { (d: Device) => d.(name := CleanName(name)) }

  predicate IsFirst(devices: seq<Device>, id: string, i: nat)
    requires i < |devices|
  {
    devices[i].id == id && forall j | 0 <= j < i :: devices[j].id != id
  }

  /** The first record of `id` is changed by `f`, and no other; none is added or removed. */
  ghost predicate ChangesOnly(before: seq<Device>, after: seq<Device>, id: string, f: Device -> Device) {
    |after| == |before|
    && forall i | 0 <= i < |before| :: after[i] == if IsFirst(before, id, i) then f(before[i]) else before[i]
  }

  lemma TouchedIsExact(devices: seq<Device>, id: string, now: U64)
    ensures ChangesOnly(devices, Touched(devices, id, now), id, Seen(now))
  {
    FirstOfId(devices, id);
  }

  lemma RevokedIsExact(devices: seq<Device>, id: string, now: U64)
    ensures Revoked(devices, id, now).Err? <==> forall d | d in devices :: d.id != id
    ensures Revoked(devices, id, now).Ok? ==>
      var (list, device) := Revoked(devices, id, now).value;
      ChangesOnly(devices, list, id, Marked(now)) && device in list && device.id == id && device.IsRevoked()
  {
    FirstOfId(devices, id);
    if Revoked(devices, id, now).Ok? {
      var i := First(devices, HasId(id)).value;
      assert Revoked(devices, id, now).value.0[i] == Revoked(devices, id, now).value.1;
    }
  }

  lemma RenamedIsExact(devices: seq<Device>, id: string, name: string)
    ensures Renamed(devices, id, name).Err? <==> forall d | d in devices :: d.id != id
    ensures Renamed(devices, id, name).Ok? ==>
      var (list, device) := Renamed(devices, id, name).value;
      ChangesOnly(devices, list, id, Named(name)) && device in list && device.id == id && IsClean(device.name)
  {
    FirstOfId(devices, id);
    CleanNameIsClean(name);
    if Renamed(devices, id, name).Ok? {
      var i := First(devices, HasId(id)).value;
      assert Renamed(devices, id, name).value.0[i] == Renamed(devices, id, name).value.1;
    }
  }

  lemma {:induction false} FirstOfId(devices: seq<Device>, id: string)
    ensures First(devices, HasId(id)).None? ==> forall d | d in devices :: d.id != id
    ensures First(devices, HasId(id)).Some? ==> IsFirst(devices, id, First(devices, HasId(id)).value)
  {
    var found := First(devices, HasId(id));
    if found.None? {
      assert forall d | d in devices :: !HasId(id)(d);
    } else {
      assert forall j | 0 <= j < found.value :: !HasId(id)(devices[j]);
    }
  }

  // ----- The registry file --------------------------------------------------

  class Registry {
    var devices: seq<Device>

    method Enroll(id: string, name: string, fingerprint: string, protocol: string, now: U64, io: Io)
      returns (r: Result<Device, RegistryError>)
      modifies this
      ensures !io.readable ==> r == Err(Unreadable) && devices == old(devices)
      ensures io.readable ==>
                match Enrolled(old(devices), id, name, fingerprint, protocol, now)
                case Err(why) => r == Err(why) && devices == old(devices)
                case Ok((after, device)) =>
                  devices == Saved(old(devices), after, io.write)
                  && r == if io.write.Done? then Ok(device) else Err(StoreFailed)
    {
      if !io.readable { return Err(Unreadable); }
      var list := devices;
      var done := First(list, IsRecord(id, fingerprint));
      if done.Some? {
        devices := Saved(devices, list, io.write);
        return if io.write.Done? then Ok(list[done.value]) else Err(StoreFailed);
      }
      if First(list, HasId(id)).Some? { return Err(IdTaken); }
      for i := 0 to |list|
        invariant devices == old(devices) && |list| == |devices|
        invariant forall k | 0 <= k < i :: list[k] == RevokeLive(fingerprint, now)(devices[k])
        invariant forall k | i <= k < |list| :: list[k] == devices[k]
      {
        if list[i].fingerprint == fingerprint && !list[i].IsRevoked() {
          list := list[i := list[i].(revokedAt := Some(now))];
        }
      }
      assert list == MapSeq(devices, RevokeLive(fingerprint, now));
      var device := NewDevice(id, name, fingerprint, protocol, now);
      list := list + [device];
      devices := Saved(devices, list, io.write);
      return if io.write.Done? then Ok(device) else Err(StoreFailed);
    }

    method Authorize(fingerprint: string, readable: bool) returns (r: Result<Device, AuthRefusal>)
      ensures r == if readable then Authorized(devices, fingerprint) else Err(UnreadableRegistry)
    {
      if !readable { return Err(UnreadableRegistry); }
      var revoked := false;
      var i := |devices|;
      assert devices[..|devices|] == devices;
      while i > 0
        invariant 0 <= i <= |devices|
        invariant match Authorized(devices[..i], fingerprint)
                  case Ok(device) => Authorized(devices, fingerprint) == Ok(device)
                  case Err(why) =>
                    Authorized(devices, fingerprint) == Err(if revoked then RevokedDevice else why)
      {
        i := i - 1;
        assert devices[..i + 1][..i] == devices[..i];
        if devices[i].fingerprint != fingerprint { continue; }
        if devices[i].IsRevoked() {
          revoked := true;
        } else {
          return Ok(devices[i]);
        }
      }
      return Err(if revoked then RevokedDevice else UnknownDevice);
    }

    method Touch(id: string, now: U64, io: Io) returns (r: Result<(), RegistryError>)
      modifies this
      ensures devices == if io.readable then Saved(old(devices), Touched(old(devices), id, now), io.write) else old(devices)
      ensures r == if !io.readable then Err(Unreadable) else if io.write.Done? then Ok(()) else Err(StoreFailed)
      ensures devices == old(devices) || ChangesOnly(old(devices), devices, id, Seen(now))
      ensures r.Ok? ==> ChangesOnly(old(devices), devices, id, Seen(now))
    {
      TouchedIsExact(devices, id, now);
      if !io.readable { return Err(Unreadable); }
      var list := devices;
      var at := First(list, HasId(id));
      if at.Some? {
        list := list[at.value := list[at.value].(lastSeen := Some(now))];
      }
      devices := Saved(devices, list, io.write);
      return if io.write.Done? then Ok(()) else Err(StoreFailed);
    }

    method Revoke(id: string, now: U64, io: Io) returns (r: Result<Device, RegistryError>)
      modifies this
      ensures !io.readable ==> r == Err(Unreadable) && devices == old(devices)
      ensures io.readable ==>
                match Revoked(old(devices), id, now)
                case Err(why) => r == Err(why) && devices == old(devices)
                case Ok((after, device)) =>
                  devices == Saved(old(devices), after, io.write)
                  && r == if io.write.Done? then Ok(device) else Err(StoreFailed)
      ensures devices == old(devices) || ChangesOnly(old(devices), devices, id, Marked(now))
      ensures r == Err(NoDevice) <==> io.readable && forall d | d in old(devices) :: d.id != id
      ensures r.Ok? ==> ChangesOnly(old(devices), devices, id, Marked(now)) && r.value in devices && r.value.IsRevoked()
    {
      RevokedIsExact(devices, id, now);
      if !io.readable { return Err(Unreadable); }
      var list := devices;
      var at := First(list, HasId(id));
      if at.None? { return Err(NoDevice); }
      if list[at.value].revokedAt.None? {
        list := list[at.value := list[at.value].(revokedAt := Some(now))];
      }
      devices := Saved(devices, list, io.write);
      return if io.write.Done? then Ok(list[at.value]) else Err(StoreFailed);
    }

    method Rename(id: string, name: string, io: Io) returns (r: Result<Device, RegistryError>)
      modifies this
      ensures !io.readable ==> r == Err(Unreadable) && devices == old(devices)
      ensures io.readable ==>
                match Renamed(old(devices), id, name)
                case Err(why) => r == Err(why) && devices == old(devices)
                case Ok((after, device)) =>
                  devices == Saved(old(devices), after, io.write)
                  && r == if io.write.Done? then Ok(device) else Err(StoreFailed)
      ensures devices == old(devices) || ChangesOnly(old(devices), devices, id, Named(name))
      ensures r == Err(NoDevice) <==> io.readable && forall d | d in old(devices) :: d.id != id
      ensures r.Ok? ==> ChangesOnly(old(devices), devices, id, Named(name)) && r.value in devices && IsClean(r.value.name)
    {
      RenamedIsExact(devices, id, name);
      if !io.readable { return Err(Unreadable); }
      var list := devices;
      var at := First(list, HasId(id));
      if at.None? { return Err(NoDevice); }
      list := list[at.value := list[at.value].(name := CleanName(name))];
      devices := Saved(devices, list, io.write);
      return if io.write.Done? then Ok(list[at.value]) else Err(StoreFailed);
    }
  }
}
