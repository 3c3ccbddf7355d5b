/**
 The persistent allowlist of LAN devices: what is trusted in memory, what is revoked although it
 could not be removed from disk yet, and what the file on disk says.

 Saving replaces the file as a whole or fails and leaves it alone; whether it succeeds is up to the
 environment, so every operation that saves takes the outcome as an argument. The file is modelled
 by what loading it yields.
 */
module TrustStore {
  import opened Wrappers

  type DeviceId = string

  datatype TrustedDevice = TrustedDevice(deviceId: DeviceId, deviceName: string, publicKey: string)

  datatype DeviceFile = DeviceFile(fingerprint: Option<string>, devices: map<DeviceId, TrustedDevice>)

  datatype Store = Store(
    fingerprint: Option<string>,
    devices: map<DeviceId, TrustedDevice>,
    revoked: set<DeviceId>,
    disk: DeviceFile)

  datatype Result = Done | Unknown | NotBound | SaveFailed

  // ----- the operations -----

  function AfterLoad(disk: DeviceFile): Store {
    Store(disk.fingerprint, disk.devices, {}, disk)
  }

  function Saved(s: Store): Store {
    s.(disk := DeviceFile(s.fingerprint, s.devices))
  }

  function AfterBind(s: Store, fingerprint: string, saveOk: bool): (Store, Result) {
    if s.fingerprint == Some(fingerprint) then (s, Done)
    else if saveOk then (Saved(s.(fingerprint := Some(fingerprint), devices := map[], revoked := {})), Done)
    else (s, SaveFailed)
  }

  function AfterTrust(s: Store, d: TrustedDevice, saveOk: bool): (Store, Result) {
    if s.fingerprint.None? then (s, NotBound)
    else if saveOk then (Saved(s.(devices := s.devices[d.deviceId := d], revoked := s.revoked - {d.deviceId})), Done)
    else (s, SaveFailed)
  }

  function AfterForget(s: Store, id: DeviceId, saveOk: bool): (Store, Result) {
    if id !in s.devices && id !in s.revoked then (s, Unknown)
    else
      var removed := s.(devices := Without(s.devices, id), revoked := s.revoked + {id});
      if saveOk then (Saved(removed).(revoked := removed.revoked - {id}), Done)
      else (removed, SaveFailed)
  }

  function PublicKey(s: Store, id: DeviceId): Option<string> {
    if id in s.revoked || id !in s.devices then None else Some(s.devices[id].publicKey)
  }

  predicate IsTrusted(s: Store, id: DeviceId, publicKey: string) {
    PublicKey(s, id) == Some(publicKey)
  }

  // ----- agreement with the disk -----

  /** Memory never trusts what the disk does not hold; what only the disk holds is revoked; nothing
      is revoked and listed at once; and both are bound to the same certificate. */
  ghost predicate Agrees(s: Store) {
    && s.fingerprint == s.disk.fingerprint
    && (forall id :: id in s.devices ==> id in s.disk.devices && s.disk.devices[id] == s.devices[id])
    && (forall id :: id in s.disk.devices && id !in s.devices ==> id in s.revoked)
    && s.revoked !! s.devices.Keys
  }

  datatype Op =
    | BindOp(fingerprint: string, saveOk: bool)
    | TrustOp(device: TrustedDevice, saveOk: bool)
    | ForgetOp(id: DeviceId, saveOk: bool)
    | RestartOp

  function Apply(s: Store, op: Op): (Store, Result) {
    match op
    case BindOp(fingerprint, saveOk) => AfterBind(s, fingerprint, saveOk)
    case TrustOp(device, saveOk) => AfterTrust(s, device, saveOk)
    case ForgetOp(id, saveOk) => AfterForget(s, id, saveOk)
    case RestartOp => (AfterLoad(s.disk), Done)
  }

  function Run(s: Store, ops: seq<Op>): Store {
    if ops == [] then s else Apply(Run(s, ops[..|ops| - 1]), ops[|ops| - 1]).0
  }

  lemma ApplyAgrees(s: Store, op: Op)
    requires Agrees(s)
    ensures Agrees(Apply(s, op).0)
  {
  }

  /** From any file, under any operations with any save failures and any restarts, memory and disk
      agree. */
  lemma {:induction false} RunAgrees(disk: DeviceFile, ops: seq<Op>)
    ensures Agrees(Run(AfterLoad(disk), ops))
  {
    if ops != [] {
      RunAgrees(disk, ops[..|ops| - 1]);
      ApplyAgrees(Run(AfterLoad(disk), ops[..|ops| - 1]), ops[|ops| - 1]);
    }
  }

  /** What a restart would bring back is exactly what is trusted now and what is revoked only in
      memory. */
  lemma RestartTrusts(s: Store, id: DeviceId, key: string)
    requires Agrees(s)
    ensures IsTrusted(AfterLoad(s.disk), id, key)
            <==> IsTrusted(s, id, key)
                 || (id in s.revoked && id in s.disk.devices && s.disk.devices[id].publicKey == key)
  {
  }

  /** A saved change survives a restart: everything trusted before it is trusted after it, and
      nothing else is. */
  lemma SavedChangeSurvives(s: Store, op: Op, id: DeviceId, key: string)
    requires Agrees(s) && !op.RestartOp? && op.saveOk && Apply(s, op).1 == Done
    requires op.BindOp? ==> s.fingerprint != Some(op.fingerprint)
    ensures var t := Apply(s, op).0;
            IsTrusted(AfterLoad(t.disk), id, key) <==> IsTrusted(t, id, key)
  {
    ApplyAgrees(s, op);
  }

  // ----- what the operations do to trust -----

  /** A trust succeeds on a bound store whose save succeeds, and only there. Then the device is listed as given and
      trusted with exactly its key, in memory and after a restart, and the trust of every other device is
      what it was. */
  lemma TrustMeans(s: Store, d: TrustedDevice, saveOk: bool, id: DeviceId, key: string)
    requires Agrees(s)
    ensures var (t, result) := AfterTrust(s, d, saveOk);
            && (result == Done <==> s.fingerprint.Some? && saveOk)
            && (result != Done ==> t == s)
            && (result == Done ==>
                  && d.deviceId in t.devices && t.devices[d.deviceId] == d
                  && (IsTrusted(t, d.deviceId, key) <==> key == d.publicKey)
                  && (IsTrusted(AfterLoad(t.disk), d.deviceId, key) <==> key == d.publicKey)
                  && (id != d.deviceId ==> (IsTrusted(t, id, key) <==> IsTrusted(s, id, key))))
  {
  }

  /** Binding another identity, once saved, leaves nothing trusted under it, also after a restart; binding the
      same one again, or failing to save, changes nothing at all. */
  lemma BindMeans(s: Store, fingerprint: string, saveOk: bool, id: DeviceId, key: string)
    ensures var (t, result) := AfterBind(s, fingerprint, saveOk);
            && (result == Done <==> saveOk || s.fingerprint == Some(fingerprint))
            && (result == Done ==> t.fingerprint == Some(fingerprint))
            && (result != Done || s.fingerprint == Some(fingerprint) ==> t == s)
            && (result == Done && s.fingerprint != Some(fingerprint) ==>
                  t.revoked == {} && !IsTrusted(t, id, key) && !IsTrusted(AfterLoad(t.disk), id, key))
  {
  }

  /** Forgetting a device that is neither listed nor revoked is refused and changes nothing; forgetting any
      other ends its trust at once, and for good once it is saved, and touches no other device. */
  lemma ForgetMeans(s: Store, id: DeviceId, saveOk: bool, other: DeviceId, key: string)
    requires Agrees(s)
    ensures var (t, result) := AfterForget(s, id, saveOk);
            && (result == Unknown <==> id !in s.devices && id !in s.revoked)
            && (result == Unknown ==> t == s)
            && (result == Done <==> result != Unknown && saveOk)
            && !IsTrusted(t, id, key)
            && (result == Done ==> !IsTrusted(AfterLoad(t.disk), id, key))
            && (other != id ==>
                  && (other in t.devices <==> other in s.devices)
                  && (IsTrusted(t, other, key) <==> IsTrusted(s, other, key)))
  {
  }

  // The operation takes the trust in this key of this device away.
  predicate Withdraws(s: Store, op: Op, id: DeviceId, key: string) {
    match op
    case BindOp(fingerprint, saveOk) => saveOk && s.fingerprint != Some(fingerprint)
    case TrustOp(device, saveOk) => saveOk && device.deviceId == id && device.publicKey != key
    case ForgetOp(forgotten, saveOk) => forgotten == id
    case RestartOp => false
  }

  ghost predicate NeverWithdraws(s: Store, ops: seq<Op>, id: DeviceId, key: string) {
    ops == [] ||
    (NeverWithdraws(s, ops[..|ops| - 1], id, key) && !Withdraws(Run(s, ops[..|ops| - 1]), ops[|ops| - 1], id, key))
  }

  // In memory and on disk the device is listed with this key.
  ghost predicate Holds(s: Store, id: DeviceId, key: string) {
    && Agrees(s) && s.fingerprint.Some?
    && IsTrusted(s, id, key)
    && id in s.disk.devices && s.disk.devices[id].publicKey == key
  }

  lemma TrustHolds(s: Store, op: Op, id: DeviceId, key: string)
    requires Holds(s, id, key) && !Withdraws(s, op, id, key)
    ensures Holds(Apply(s, op).0, id, key)
  {
    ApplyAgrees(s, op);
  }

  /** A trusted device stays trusted through restarts, failed saves and whatever happens to other devices, until
      it is forgotten, trusted with another key, or another identity is bound. */
  lemma {:induction false} TrustedStaysTrusted(s: Store, d: TrustedDevice, ops: seq<Op>)
    requires Agrees(s) && s.fingerprint.Some?
    requires NeverWithdraws(AfterTrust(s, d, true).0, ops, d.deviceId, d.publicKey)
    ensures Holds(Run(AfterTrust(s, d, true).0, ops), d.deviceId, d.publicKey)
    ensures IsTrusted(Run(AfterTrust(s, d, true).0, ops), d.deviceId, d.publicKey)
  {
    var trusted := AfterTrust(s, d, true).0;
    if ops == [] {
      ApplyAgrees(s, TrustOp(d, true));
    } else {
      TrustedStaysTrusted(s, d, ops[..|ops| - 1]);
      TrustHolds(Run(trusted, ops[..|ops| - 1]), ops[|ops| - 1], d.deviceId, d.publicKey);
    }
  }

  // ----- revocation over runs -----

  // The operation is a trust of this device that succeeded.
  predicate Trusts(s: Store, op: Op, id: DeviceId) {
    op.TrustOp? && op.device.deviceId == id && Apply(s, op).1 == Done
  }

  ghost predicate NeverTrusts(s: Store, ops: seq<Op>, id: DeviceId) {
    ops == [] ||
    (NeverTrusts(s, ops[..|ops| - 1], id) && !Trusts(Run(s, ops[..|ops| - 1]), ops[|ops| - 1], id))
  }

  /** A device is untrusted from the moment it is forgotten, whether or not that could be saved, until
      it is trusted again, whatever else happens before a restart. */
  lemma {:induction false} ForgottenStaysUntrusted(s: Store, id: DeviceId, saveOk: bool, ops: seq<Op>, key: string)
    requires NeverTrusts(AfterForget(s, id, saveOk).0, ops, id)
    requires forall op :: op in ops ==> !op.RestartOp?
    ensures var t := Run(AfterForget(s, id, saveOk).0, ops);
            id !in t.devices && !IsTrusted(t, id, key)
  {
    if ops != [] {
      ForgottenStaysUntrusted(s, id, saveOk, ops[..|ops| - 1], key);
    }
  }

  /** Only an unsaved removal can come back with a restart, and retrying it until it is saved prevents
      that for good: whatever else happens, restarts and failed attempts to trust the device included, it
      stays untrusted until it is trusted successfully. */
  lemma {:induction false} SavedRemovalIsFinal(s: Store, id: DeviceId, ops: seq<Op>, key: string)
    requires Agrees(s) && NeverTrusts(AfterForget(s, id, true).0, ops, id)
    ensures var t := Run(AfterForget(s, id, true).0, ops);
            id !in t.devices && id !in t.disk.devices && !IsTrusted(t, id, key)
  {
    if ops != [] {
      SavedRemovalIsFinal(s, id, ops[..|ops| - 1], key);
    }
  }

  // ----- the store in memory -----

  class TrustedDeviceStore {
    var pcCertificateFingerprint: Option<string>
    var devices: map<DeviceId, TrustedDevice>
    var revoked: set<DeviceId>
    // The file, as the next load would read it.
    var disk: DeviceFile

    ghost function State(): Store
      reads this
    {
      Store(pcCertificateFingerprint, devices, revoked, disk)
    }

    constructor Load(file: DeviceFile)
      ensures State() == AfterLoad(file)
    {
      pcCertificateFingerprint, devices, revoked, disk := file.fingerprint, file.devices, {}, file;
    }

    method SaveState(saveOk: bool)
      modifies `disk
      ensures disk == if saveOk then DeviceFile(pcCertificateFingerprint, devices) else old(disk)
    {
      if saveOk {
        disk := DeviceFile(pcCertificateFingerprint, devices);
      }
    }

    /** A failed bind restores exactly what was there. */
    method BindPcIdentity(fingerprint: string, saveOk: bool) returns (result: Result)
      modifies this
      ensures (State(), result) == AfterBind(old(State()), fingerprint, saveOk)
      ensures result == Done && old(pcCertificateFingerprint) != Some(fingerprint) ==> devices == map[]
      ensures result != Done ==> State() == old(State())
    {
      if pcCertificateFingerprint == Some(fingerprint) {
        return Done;
      }
      var previousFingerprint, previousDevices, previousRevoked := pcCertificateFingerprint, devices, revoked;
      pcCertificateFingerprint, devices, revoked := Some(fingerprint), map[], {};
      SaveState(saveOk);
      if !saveOk {
        pcCertificateFingerprint, devices, revoked := previousFingerprint, previousDevices, previousRevoked;
        return SaveFailed;
      }
      return Done;
    }

    /** A failed trust restores exactly what was there. */
    method Trust(deviceId: DeviceId, deviceName: string, publicKey: string, saveOk: bool) returns (result: Result)
      modifies this
      ensures (State(), result) == AfterTrust(old(State()), TrustedDevice(deviceId, deviceName, publicKey), saveOk)
      ensures result == Done <==> saveOk && old(pcCertificateFingerprint).Some?
      ensures result == Done ==> forall key :: IsTrusted(State(), deviceId, key) <==> key == publicKey
      ensures result != Done ==> State() == old(State())
    {
      if pcCertificateFingerprint.None? {
        return NotBound;
      }
      var wasRevoked := deviceId in revoked;
      revoked := revoked - {deviceId};
      var previous := if deviceId in devices then Some(devices[deviceId]) else None;
      devices := devices[deviceId := TrustedDevice(deviceId, deviceName, publicKey)];
      SaveState(saveOk);
      if !saveOk {
        if wasRevoked {
          revoked := revoked + {deviceId};
        }
        match previous {
          case Some(device) => devices := devices[deviceId := device];
          case None => devices := Without(devices, deviceId);
        }
        assert devices == old(devices) && revoked == old(revoked);
        return SaveFailed;
      }
      return Done;
    }

    method Forget(deviceId: DeviceId, saveOk: bool) returns (result: Result)
      modifies this
      ensures (State(), result) == AfterForget(old(State()), deviceId, saveOk)
      ensures forall key :: !IsTrusted(State(), deviceId, key)
    {
      var removed := deviceId in devices;
      devices := Without(devices, deviceId);
      var alreadyRevoked := deviceId in revoked;
      revoked := revoked + {deviceId};
      if !removed && !alreadyRevoked {
        revoked := revoked - {deviceId};
        assert devices == old(devices) && revoked == old(revoked);
        return Unknown;
      }
      SaveState(saveOk);
      if !saveOk {
        return SaveFailed;
      }
      revoked := revoked - {deviceId};
      return Done;
    }
  }
}
