/** Which pool a detector draws on (operators/z21-device/api/v1alpha1/z21device_types.go),
    and what a reconcile says when there is none to draw on. */
module PoolChoice {
  import opened Basics
  import opened PoolConfig
  import opened PoolSpec
  import opened Detectors
  import opened Allocation
  import opened DetectorProtocol

  /** Devices are stored under their own names. */
  ghost predicate DevicesKeyed(env: Env) {
    forall k :: k in env.devices ==> env.devices[k].key == k
  }

  predicate NamesPool(dev: Z21Device) {
    dev.poolRef.Some? && dev.poolRef.value != ""
  }

  /** Which records are listed for a pool: those of the devices that name it from
      its own namespace, and for elp/default also those of devices that name none. */
  lemma PoolListsExactly(env: Env, items: seq<Detector>, pool: Key, d: Detector)
    requires DevicesKeyed(env)
    ensures d in PoolDetectors(env, items, pool) <==>
              && d in items && d.deviceRef != "" && Key(d.key.ns, d.deviceRef) in env.devices
              && var dev := env.devices[Key(d.key.ns, d.deviceRef)];
                 if NamesPool(dev) then pool.ns == d.key.ns && pool.name == dev.poolRef.value
                 else pool.ns == "elp" && pool.name == "default"
  {
    PoolDetectorsMembers(env, items, pool);
  }

  /** Records of two devices are listed together exactly if neither device names
      a pool, or both name the same one from one namespace, or one names the
      bundled pool from its namespace and the other names none. */
  lemma ListedTogetherExactly(env: Env, items: seq<Detector>, d: Detector, e: Detector)
    requires DevicesKeyed(env) && d in items && e in items && d.deviceRef != "" && e.deviceRef != ""
    requires Key(d.key.ns, d.deviceRef) in env.devices && Key(e.key.ns, e.deviceRef) in env.devices
    ensures var a, b := env.devices[Key(d.key.ns, d.deviceRef)], env.devices[Key(e.key.ns, e.deviceRef)];
            (exists pool :: d in PoolDetectors(env, items, pool) && e in PoolDetectors(env, items, pool)) <==>
              || (!NamesPool(a) && !NamesPool(b))
              || (NamesPool(a) && NamesPool(b) && a.poolRef == b.poolRef && d.key.ns == e.key.ns)
              || (NamesPool(a) && !NamesPool(b) && a.poolRef == Some("default") && d.key.ns == "elp")
              || (!NamesPool(a) && NamesPool(b) && b.poolRef == Some("default") && e.key.ns == "elp")
  {
    var a := env.devices[Key(d.key.ns, d.deviceRef)];
    var pool := if NamesPool(a) then Key(d.key.ns, a.poolRef.value) else Key("elp", "default");
    PoolListsExactly(env, items, pool, d);
    PoolListsExactly(env, items, pool, e);
    if p :| d in PoolDetectors(env, items, p) && e in PoolDetectors(env, items, p) {
      PoolListsExactly(env, items, p, d);
      PoolListsExactly(env, items, p, e);
    }
  }

  /** An address held lies in the range of the pool the record's device names in
      its own namespace, or of elp/default if it names none. */
  lemma ServedFromItsPool(env: Env, s: Store, k: Key)
    requires DevicesKeyed(env) && StoreInv(env, s) && k in s && Effective(s[k]).Some?
    ensures Key(k.ns, s[k].deviceRef) in env.devices
    ensures var dev := env.devices[Key(k.ns, s[k].deviceRef)];
            var pool := if NamesPool(dev) then Key(k.ns, dev.poolRef.value) else Key("elp", "default");
            pool in env.pools && env.pools[pool].start <= Effective(s[k]).value <= env.pools[pool].end
  {
    assert InItsPool(env, s[k]);
  }

  /** What a reconcile that cannot decide says. */
  lemma FailuresSayWhy(env: Env, items: seq<Detector>, d: Detector)
    requires DevicesKeyed(env)
    ensures var t := Target(env, items, d);
            && (d.deviceRef == "" ==> t == d.(phase := Failed, message := DeviceRefRequired))
            && (d.deviceRef != "" && Key(d.key.ns, d.deviceRef) !in env.devices ==>
                  t == d.(phase := Failed, message := DeviceNotFound))
            && (PoolOf(env, d).Some? && PoolOf(env, d).value !in env.pools ==>
                  t == d.(phase := Failed, message := PoolNotFound))
            && (PoolOf(env, d).Some? && PoolOf(env, d).value in env.pools && !ValidConfig(env.pools[PoolOf(env, d).value]) ==>
                  t.phase == Failed && t.message.BadConfig?
                  && FirstError(env.pools[PoolOf(env, d).value]) == Some(t.message.configError))
  {
    if PoolOf(env, d).Some? && PoolOf(env, d).value in env.pools { AcceptsExactlyValid(env.pools[PoolOf(env, d).value]); }
  }
}
