/** operators/z21-device/api/v1alpha1: the custom resources the protocol is
    about, and the pure functions over their fields. */
module Detectors {
  import opened Basics
  import opened PoolConfig
  import opened PoolSpec

  const LABEL_DEVICE_NAME := "z21.trains.io/device"
  const DEFAULT_POOL_NAME := "default"
  const DEFAULT_POOL_NAMESPACE := "elp"

  /** A Kubernetes namespaced name. */
  datatype Key = Key(ns: string, name: string)

  datatype Phase = Unset | Pending | Allocated | Applied | Failed

  /** The status message, as an enumeration of its causes. */
  datatype Message =
    | NoMessage
    | BadConfig(configError: ConfigError)
    | PoolRefused(poolError: PoolError)
    | DeviceRefRequired
    | DeviceNotFound
    | PoolNotFound
    | StillReports(addr: uint16)

  datatype Detector = Detector(
    key: Key,
    labels: map<string, string>,
    // spec
    deviceRef: string,
    netID: uint16,
    desiredAddr: Option<uint16>,
    adopt: Option<bool>,
    // status
    observedAddr: Option<uint16>,
    assignedAddr: Option<uint16>,
    phase: Phase,
    message: Message)

  datatype Z21Device = Z21Device(key: Key, poolRef: Option<string>)

  predicate AdoptObservedEnabled(d: Detector) {
    d.adopt.None? || d.adopt.value
  }

  function OwnerKey(k: Key): string {
    k.ns + "/" + k.name
  }

  /** The pool a device allocates from: its own reference within its namespace, else the bundled one. */
  function PoolKey(dev: Z21Device): Key {
    if dev.poolRef.Some? && dev.poolRef.value != "" then Key(dev.key.ns, dev.poolRef.value)
    else Key(DEFAULT_POOL_NAMESPACE, DEFAULT_POOL_NAME)
  }

  /** The address a detector holds: assigned, else desired. */
  function Effective(d: Detector): Option<uint16> {
    if d.assignedAddr.Some? then d.assignedAddr else d.desiredAddr
  }

  /** Distinct detectors have distinct owner identities, provided no namespace contains a slash. */
  lemma OwnerKeyInjective(a: Key, b: Key)
    requires '/' !in a.ns && '/' !in b.ns
    ensures OwnerKey(a) == OwnerKey(b) <==> a == b
  {
    var s, t := OwnerKey(a), OwnerKey(b);
    assert s[|a.ns|] == '/' == t[|b.ns|];
    assert |a.ns| < |b.ns| ==> t[|a.ns|] == b.ns[|a.ns|];
    assert |b.ns| < |a.ns| ==> s[|b.ns|] == a.ns[|b.ns|];
    if s == t {
      assert a.ns == s[..|a.ns|] == b.ns;
      assert a.name == s[|a.ns| + 1..] == b.name;
    }
  }
}
