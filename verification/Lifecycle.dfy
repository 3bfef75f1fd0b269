/** When a browser context has served long enough (`ContextLifecycleConfig`), and the capacity
    limits a scope is accepted with. Instants and durations are natural numbers of one clock. */
module Lifecycle {

  datatype RotationStrategy = TimeBasedOnly | RequestBasedOnly | Hybrid

  datatype SessionMode = AlwaysNew | Reusable | Dedicated

  datatype LifecycleConfig = LifecycleConfig(
    maxLifetime: nat, maxRequests: nat, maxCacheMb: nat, maxIdleTime: nat, rotation: RotationStrategy)
  {
    predicate IsUsedUp(age: nat, requests: nat) {
      var tooOld := age > maxLifetime;
      var tooMany := requests >= maxRequests;
      match rotation
      case TimeBasedOnly => tooOld
      case RequestBasedOnly => tooMany
      case Hybrid => tooOld || tooMany
    }

    /** Idle time and cache size count for the monitor only, and only under Hybrid. */
    predicate ShouldRecycle(age: nat, requests: nat, idleFor: nat, cacheMb: nat) {
      IsUsedUp(age, requests) || (rotation.Hybrid? && (idleFor > maxIdleTime || cacheMb > maxCacheMb))
    }
  }

  datatype Scope = Scope(mode: SessionMode, minContexts: nat, maxContexts: nat, lifecycle: LifecycleConfig)
  {
    /** The checks of `ScopeConfig::validate` the pool relies on. */
    predicate Accepted() {
      && maxContexts > 0
      && minContexts <= maxContexts
      && (mode.Dedicated? ==> lifecycle.rotation.Hybrid?)
    }
  }

  /** The elapsed time of an instant: zero for one that lies ahead. */
  function Elapsed(since: nat, now: nat): nat {
    if now >= since then now - since else 0
  }
}
