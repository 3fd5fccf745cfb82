/**
 * The ammunition arithmetic of a ranged weapon (URangedWeaponFiringComponent):
 * the check before a shot, how the projectiles of one shot split around the
 * aim line, what a shot costs the clip, and reloading and restoring. Timing,
 * traces, projectile spawning and montages are not modelled.
 */
module RangedFiring {
  import opened Tags

  /** The ammunition counters. */
  datatype Ammo = Ammo(clip: int, reserve: int)

  /** The weapon's fixed ammunition settings. */
  datatype Magazine = Magazine(clipSize: int, reserveSize: int, unlimitedClip: bool, oneAmmoPerShot: bool)

  /** The rounds one shot of `projectiles` takes from a limited clip. */
  function ShotCost(mag: Magazine, projectiles: int): int
  {
    if mag.oneAmmoPerShot then 1 else projectiles
  }

  /**
   * The ammunition half of CanFire: a limited clip must hold the shot's cost
   * and not be empty; an unlimited clip always passes.
   */
  function PassesAmmoCheck(mag: Magazine, clip: int, bullets: int): (r: bool)
    ensures mag.unlimitedClip ==> r
    // whenever a limited clip passes, paying for the shot leaves it non-negative
    ensures r && !mag.unlimitedClip ==> clip > 0 && clip - ShotCost(mag, bullets) >= 0
    ensures !mag.unlimitedClip && clip > 0 && ShotCost(mag, bullets) <= clip ==> r
  {
    var total := if mag.oneAmmoPerShot then 1 else bullets;
    (total <= clip && clip > 0) || mag.unlimitedClip
  }

  /** How a shot's projectiles fan out: `side` on each side of the aim line, plus one on it. */
  datatype Spread = Spread(side: int, middle: bool)

  /**
   * The spread of FirePattern: an odd count fires a middle projectile and
   * splits the rest evenly, an even count splits evenly. C++ `%` and `/`
   * truncate toward zero, which the model keeps for negative counts.
   */
  function ShotSpread(projectiles: int): (r: Spread)
    ensures 2 * r.side + (if r.middle then 1 else 0) == projectiles
    ensures r.middle <==> projectiles % 2 == 1
    ensures projectiles >= 0 ==> r.side >= 0
  {
    var middle := CRem(projectiles, 2) != 0;
    if middle then Spread(CDiv(projectiles - 1, 2), true)
    else Spread(CDiv(projectiles, 2), false)
  }

  /** ReloadWeaponServer: whether a reload may start now (CanReload). */
  predicate CanReload(mag: Magazine, ammo: Ammo, reloading: bool)
  {
    !reloading && ammo.reserve >= mag.clipSize
  }

  /**
   * ReloadWeaponServer. With `changeAmmoCount`, a limited clip is refilled to
   * ClipSize from a reserve that holds a full clip, and an unlimited clip is
   * refilled for free; otherwise nothing changes. Rounds still in the clip
   * are not returned to the reserve.
   */
  function Reload(mag: Magazine, ammo: Ammo, changeAmmoCount: bool): (r: Ammo)
    ensures !changeAmmoCount ==> r == ammo
    // a limited reload moves one whole clip out of the reserve; the rounds left in the clip are dropped
    ensures changeAmmoCount && !mag.unlimitedClip && ammo.reserve >= mag.clipSize ==>
              r.clip == mag.clipSize && r.reserve == ammo.reserve - mag.clipSize
              && r.clip + r.reserve == ammo.reserve
    ensures changeAmmoCount && !mag.unlimitedClip && ammo.reserve < mag.clipSize ==> r == ammo
    ensures changeAmmoCount && mag.unlimitedClip ==> r == Ammo(mag.clipSize, ammo.reserve)
    // the reserve never goes below zero
    ensures ammo.reserve >= 0 ==> r.reserve >= 0
  {
    if !changeAmmoCount then ammo
    else if ammo.reserve >= mag.clipSize && !mag.unlimitedClip then Ammo(mag.clipSize, ammo.reserve - mag.clipSize)
    else if mag.unlimitedClip then Ammo(mag.clipSize, ammo.reserve)
    else ammo
  }

  /** RestoreAmmunitionServer: refill the clip and/or the reserve to their sizes. */
  function Restore(mag: Magazine, ammo: Ammo, restoreClip: bool, restoreReserve: bool): (r: Ammo)
    ensures r.clip == (if restoreClip then mag.clipSize else ammo.clip)
    ensures r.reserve == (if restoreReserve then mag.reserveSize else ammo.reserve)
  {
    Ammo(if restoreClip then mag.clipSize else ammo.clip,
         if restoreReserve then mag.reserveSize else ammo.reserve)
  }

  /** A full clip holds any shot that fits in a clip. */
  lemma FullClipFires(mag: Magazine, ammo: Ammo, restoreReserve: bool, bullets: int)
    requires mag.clipSize > 0 && ShotCost(mag, bullets) <= mag.clipSize
    ensures PassesAmmoCheck(mag, Restore(mag, ammo, true, restoreReserve).clip, bullets)
    ensures mag.unlimitedClip || ammo.reserve >= mag.clipSize ==> PassesAmmoCheck(mag, Reload(mag, ammo, true).clip, bullets)
  {
  }

  /** What one FirePattern call did: the counters afterwards, and whether a shot left. */
  datatype FireOutcome = FireOutcome(ammo: Ammo, fired: bool)

  /**
   * The ammunition path of FirePattern. Nothing happens while reloading or
   * once the burst is complete. A shot needs the timing and ammunition
   * checks; when the ammunition check fails an automatic weapon reloads if
   * it can. A shot pays its cost from a limited clip, and an automatic
   * weapon reloads once the clip is empty.
   */
  function FirePattern(mag: Magazine, ammo: Ammo, projectiles: int, reloading: bool, burstComplete: bool,
                       passTiming: bool, automaticReload: bool): (r: FireOutcome)
    ensures r.fired <==> !reloading && passTiming && PassesAmmoCheck(mag, ammo.clip, projectiles) && !burstComplete
    ensures reloading ==> r.ammo == ammo
    // a shot takes its cost from a limited clip, unless an automatic reload follows
    ensures r.fired && !mag.unlimitedClip && (!automaticReload || ammo.clip - ShotCost(mag, projectiles) > 0) ==>
              r.ammo == Ammo(ammo.clip - ShotCost(mag, projectiles), ammo.reserve)
    ensures r.fired && mag.unlimitedClip && (!automaticReload || ammo.clip > 0) ==> r.ammo == ammo
    // without an automatic reload, a refused shot changes nothing
    ensures !r.fired && !automaticReload ==> r.ammo == ammo
  {
    if reloading then FireOutcome(ammo, false)
    else
      var passAmmo := PassesAmmoCheck(mag, ammo.clip, projectiles);
      if !passTiming || !passAmmo then
        if !passAmmo && CanReload(mag, ammo, reloading) && automaticReload then FireOutcome(Reload(mag, ammo, true), false)
        else FireOutcome(ammo, false)
      else if burstComplete then FireOutcome(ammo, false)
      else
        var clip := if mag.unlimitedClip then ammo.clip else ammo.clip - ShotCost(mag, projectiles);
        var shot := Ammo(clip, ammo.reserve);
        if CanReload(mag, shot, reloading) && automaticReload && shot.clip <= 0 then FireOutcome(Reload(mag, shot, true), true)
        else FireOutcome(shot, true)
  }

  /** Counters that start non-negative stay non-negative, whatever is fired, reloaded or restored. */
  lemma CountersStayNonNegative(mag: Magazine, ammo: Ammo, projectiles: int, reloading: bool, burstComplete: bool,
                                   passTiming: bool, automaticReload: bool)
    requires mag.clipSize >= 0 && mag.reserveSize >= 0
    requires ammo.clip >= 0 && ammo.reserve >= 0
    ensures var r := FirePattern(mag, ammo, projectiles, reloading, burstComplete, passTiming, automaticReload).ammo;
            r.clip >= 0 && r.reserve >= 0
    ensures forall c: bool, v: bool :: Restore(mag, ammo, c, v).clip >= 0 && Restore(mag, ammo, c, v).reserve >= 0
  {
    var r := FirePattern(mag, ammo, projectiles, reloading, burstComplete, passTiming, automaticReload);
    if r.fired && !mag.unlimitedClip {
      assert PassesAmmoCheck(mag, ammo.clip, projectiles);
      assert ammo.clip - ShotCost(mag, projectiles) >= 0;
    }
  }

  /** A shot from a limited clip that needs no reload spends exactly its cost from clip plus reserve. */
  lemma ShotSpendsItsCost(mag: Magazine, ammo: Ammo, projectiles: int, burstComplete: bool)
    requires !mag.unlimitedClip
    ensures var r := FirePattern(mag, ammo, projectiles, false, burstComplete, true, false);
            r.fired ==> r.ammo.clip + r.ammo.reserve == ammo.clip + ammo.reserve - ShotCost(mag, projectiles)
  {
  }
}
