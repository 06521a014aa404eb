/**
 * The watcher's per-skin step (main.py): average the recent history, compare
 * the current lowest price with it, and alert through the notifier unless the
 * skin was alerted on within the cooldown. The only state that outlives a
 * step is `last_notified`, the time of each skin's last delivered alert.
 *
 * The collaborators (the market's history and lowest price, the notifier's
 * answer) are given as an `Observation`; the clock is the parameter `now`.
 */
module Watcher {
  import opened Wrappers
  import opened Calendar
  import opened Analyzer
  import opened SteamClient

  const SkinsToWatch: seq<string> := [
    "AK-47 | Slate (Field-Tested)",
    "AWP | Atheris (Field-Tested)",
    "USP-S | Cortex (Field-Tested)",
    "Glock-18 | Vogue (Field-Tested)",
    "M4A1-S | Night Terror (Field-Tested)",
    "AK-47 | Elite Build (Field-Tested)",
    "AWP | Worm God (Field-Tested)",
    "M4A4 | Griffin (Field-Tested)",
    "USP-S | Flashback (Field-Tested)",
    "FAMAS | Mecha Industries (Field-Tested)"
  ]

  const DiscountThresholdPercent: real := 10.0
  const NotificationCooldownMinutes: int := 30

  /** What the market and the notifier answer for one skin in one step. */
  datatype Observation = Observation(history: seq<Row>, lowest: Option<real>, sent: bool)

  /** The arguments of `send_price_alert`. */
  datatype Alert = Alert(
    skinName: string,
    currentPrice: real,
    averagePrice: real,
    marketLink: string,
    discountPct: real)

  /** What one step does with a skin. */
  datatype Decision =
    | NoAverage
    | NoLowestPrice
    | NoAlert
    | CooldownActive
    | Dispatch(alert: Alert)

  /** `should_notify`, with the clock reading passed in. */
  function ShouldNotify(lastNotificationAt: Option<Instant>, cooldownMinutes: int, now: Instant): (r: bool)
    ensures lastNotificationAt.None? ==> r
  {
    lastNotificationAt.None? || now - lastNotificationAt.value >= Minutes(cooldownMinutes)
  }

  /**
   * The branches of the loop body for one skin, given the reference price,
   * the current lowest price and the skin's last alert time.
   */
  function Decide(skin: string, average: Option<real>, lowest: Option<real>,
                  last: Option<Instant>, now: Instant): (d: Decision)
    ensures average.None? ==> d == NoAverage
    ensures average.Some? && lowest.None? ==> d == NoLowestPrice
    ensures d.Dispatch? <==>
      && average.Some? && lowest.Some?
      && IsDiscountSignificant(lowest.value, average.value, DiscountThresholdPercent)
      && ShouldNotify(last, NotificationCooldownMinutes, now)
    ensures d.Dispatch? ==> d.alert == Alert(skin, lowest.value, average.value,
      BuildListingUrl(skin), DiscountPercentage(lowest.value, average.value))
  {
    if average.None? then NoAverage
    else if lowest.None? then NoLowestPrice
    else if !IsDiscountSignificant(lowest.value, average.value, DiscountThresholdPercent) then NoAlert
    else if !ShouldNotify(last, NotificationCooldownMinutes, now) then CooldownActive
    else
      var discountPct := DiscountPercentage(lowest.value, average.value);
      Dispatch(Alert(skin, lowest.value, average.value, BuildListingUrl(skin), discountPct))
  }

  /** The cooldown map after a step: stamped with `now` only for a delivered alert. */
  function Stamp(m: map<string, Instant>, skin: string, d: Decision, sent: bool, now: Instant): (r: map<string, Instant>)
    ensures forall k :: k != skin ==> Get(r, k) == Get(m, k)
    ensures Get(r, skin) == if d.Dispatch? && sent then Some(now) else Get(m, skin)
  {
    if d.Dispatch? && sent then m[skin := now] else m
  }

  /** The decision of one step on the skin `skin`. */
  function StepDecision(m: map<string, Instant>, skin: string, obs: Observation, now: Instant): Decision {
    Decide(skin, ReferencePrice(obs.history, now), obs.lowest, Get(m, skin), now)
  }

  /** The cooldown map after one step on the skin `skin`. */
  function Step(m: map<string, Instant>, skin: string, obs: Observation, now: Instant): map<string, Instant> {
    Stamp(m, skin, StepDecision(m, skin, obs, now), obs.sent, now)
  }

  /** The cooldown map after a pass over `skins`, the i-th step seeing `obs[i]` at `nows[i]`. */
  function Pass(m: map<string, Instant>, skins: seq<string>, obs: seq<Observation>, nows: seq<Instant>): map<string, Instant>
    requires |obs| == |skins| && |nows| == |skins|
  {
    if skins == [] then m
    else
      var n := |skins| - 1;
      Step(Pass(m, skins[..n], obs[..n], nows[..n]), skins[n], obs[n], nows[n])
  }

  /** The decisions of a pass over `skins`, each taken on the map the steps before it left. */
  function Decisions(m: map<string, Instant>, skins: seq<string>, obs: seq<Observation>, nows: seq<Instant>): (ds: seq<Decision>)
    requires |obs| == |skins| && |nows| == |skins|
    ensures |ds| == |skins|
  {
    if skins == [] then []
    else
      var n := |skins| - 1;
      Decisions(m, skins[..n], obs[..n], nows[..n]) +
        [StepDecision(Pass(m, skins[..n], obs[..n], nows[..n]), skins[n], obs[n], nows[n])]
  }

  /** The state of `run`'s loop: the time of each skin's last delivered alert. */
  class WatchLoop {
    var lastNotified: map<string, Instant>

    /** `last_notified: dict[str, datetime] = {}`. */
    constructor()
      ensures lastNotified == map[]
    {
      lastNotified := map[];
    }

    /** The body of the `for skin` loop. */
    method CheckSkin(skin: string, obs: Observation, now: Instant) returns (d: Decision)
      modifies this
      ensures d == StepDecision(old(lastNotified), skin, obs, now)
      ensures lastNotified == Step(old(lastNotified), skin, obs, now)
    {
      var averagePrice := CalculateWeightedAverageLast24h(obs.history, now);
      if averagePrice.None? {
        return NoAverage;
      }
      var currentLowest := obs.lowest;
      if currentLowest.None? {
        return NoLowestPrice;
      }
      if IsDiscountSignificant(currentLowest.value, averagePrice.value, DiscountThresholdPercent) {
        var discountPct := DiscountPercentage(currentLowest.value, averagePrice.value);
        if ShouldNotify(Get(lastNotified, skin), NotificationCooldownMinutes, now) {
          var marketLink := BuildListingUrl(skin);
          d := Dispatch(Alert(skin, currentLowest.value, averagePrice.value, marketLink, discountPct));
          if obs.sent {
            lastNotified := lastNotified[skin := now];
          }
        } else {
          d := CooldownActive;
        }
      } else {
        d := NoAlert;
      }
    }

    /** One pass of the `for skin in SKINS_TO_WATCH` loop. */
    method RunPass(obs: seq<Observation>, nows: seq<Instant>) returns (decisions: seq<Decision>)
      requires |obs| == |SkinsToWatch| && |nows| == |SkinsToWatch|
      modifies this
      ensures lastNotified == Pass(old(lastNotified), SkinsToWatch, obs, nows)
      ensures |decisions| == |SkinsToWatch|
      ensures decisions == Decisions(old(lastNotified), SkinsToWatch, obs, nows)
    {
      var skins := SkinsToWatch;
      decisions := [];
      for i := 0 to |skins|
        invariant lastNotified == Pass(old(lastNotified), skins[..i], obs[..i], nows[..i])
        invariant decisions == Decisions(old(lastNotified), skins[..i], obs[..i], nows[..i])
      {
        PassPrefix(old(lastNotified), skins, obs, nows, i);
        var d := CheckSkin(skins[i], obs[i], nows[i]);
        decisions := decisions + [d];
      }
      assert skins[..|skins|] == skins && obs[..|skins|] == obs && nows[..|skins|] == nows;
    }
  }

  /** One more step extends a pass over a prefix. */
  lemma PassPrefix(m: map<string, Instant>, skins: seq<string>, obs: seq<Observation>, nows: seq<Instant>, i: int)
    requires |obs| == |skins| && |nows| == |skins| && 0 <= i < |skins|
    ensures Pass(m, skins[..i + 1], obs[..i + 1], nows[..i + 1]) ==
      Step(Pass(m, skins[..i], obs[..i], nows[..i]), skins[i], obs[i], nows[i])
    ensures Decisions(m, skins[..i + 1], obs[..i + 1], nows[..i + 1]) ==
      Decisions(m, skins[..i], obs[..i], nows[..i]) +
        [StepDecision(Pass(m, skins[..i], obs[..i], nows[..i]), skins[i], obs[i], nows[i])]
  {
    assert skins[..i + 1][..i] == skins[..i];
    assert obs[..i + 1][..i] == obs[..i];
    assert nows[..i + 1][..i] == nows[..i];
  }

  // ---------------------------------------------------------------------
  // The cooldown
  // ---------------------------------------------------------------------

  /** With a 30-minute cooldown, 29 minutes later is too early; 30 and 31 are not. */
  lemma CooldownExample(t: Instant)
    ensures !ShouldNotify(Some(t), NotificationCooldownMinutes, t + Minutes(29))
    ensures ShouldNotify(Some(t), NotificationCooldownMinutes, t + Minutes(30))
    ensures ShouldNotify(Some(t), NotificationCooldownMinutes, t + Minutes(31))
  {
  }

  /** Once the cooldown has passed it stays passed. */
  lemma ShouldNotifyLater(last: Option<Instant>, cooldownMinutes: int, now: Instant, later: Instant)
    requires now <= later && ShouldNotify(last, cooldownMinutes, now)
    ensures ShouldNotify(last, cooldownMinutes, later)
  {
  }

  /** An alert stamped at `now` silences the skin at `now`, for any positive cooldown. */
  lemma SilencedRightAfterAlert(now: Instant, cooldownMinutes: int)
    requires cooldownMinutes > 0
    ensures !ShouldNotify(Some(now), cooldownMinutes, now)
  {
    assert Minutes(cooldownMinutes) >= MicrosPerMinute;
  }

  // ---------------------------------------------------------------------
  // One step
  // ---------------------------------------------------------------------

  /** An alert goes out only for a price at least 10% below a positive average. */
  lemma DispatchMeansDeepDiscount(skin: string, average: Option<real>, lowest: Option<real>,
                                                    last: Option<Instant>, now: Instant)
    requires Decide(skin, average, lowest, last, now).Dispatch?
    ensures average.Some? && lowest.Some? && average.value > 0.0
    ensures lowest.value <= average.value * 0.9
    ensures Decide(skin, average, lowest, last, now).alert.discountPct >= DiscountThresholdPercent
  {
    SignificantIffAtMostTargetPrice(lowest.value, average.value, DiscountThresholdPercent);
  }

  /** Missing data skips the skin and leaves the cooldown map as it was. */
  lemma MissingDataLeavesMap(m: map<string, Instant>, skin: string, obs: Observation, now: Instant)
    requires ReferencePrice(obs.history, now).None? || obs.lowest.None?
    ensures !StepDecision(m, skin, obs, now).Dispatch?
    ensures Step(m, skin, obs, now) == m
  {
  }

  /** A step changes at most the entry of its own skin, and only to `now`. */
  lemma StepChanges(m: map<string, Instant>, skin: string, obs: Observation, now: Instant)
    ensures Step(m, skin, obs, now) == m || Step(m, skin, obs, now) == m[skin := now]
    ensures Step(m, skin, obs, now) != m ==> StepDecision(m, skin, obs, now).Dispatch? && obs.sent
  {
  }

  /** A failed delivery leaves the map as it was. */
  lemma UndeliveredLeavesMap(m: map<string, Instant>, skin: string, obs: Observation, now: Instant)
    requires !obs.sent
    ensures Step(m, skin, obs, now) == m
  {
  }

  /**
   * After a delivered alert the same skin cannot alert again at the same
   * instant, whatever the market then reports.
   */
  lemma NoRepeatAtSameInstant(m: map<string, Instant>, skin: string, obs: Observation,
                                                 again: Observation, now: Instant)
    requires StepDecision(m, skin, obs, now).Dispatch? && obs.sent
    ensures !StepDecision(Step(m, skin, obs, now), skin, again, now).Dispatch?
  {
    assert Get(Step(m, skin, obs, now), skin) == Some(now);
    SilencedRightAfterAlert(now, NotificationCooldownMinutes);
  }

  // ---------------------------------------------------------------------
  // A pass
  // ---------------------------------------------------------------------

  /** A skin outside the pass keeps its entry. */
  lemma {:induction false} PassKeepsUnwatched(m: map<string, Instant>, skins: seq<string>,
                                             obs: seq<Observation>, nows: seq<Instant>, k: string)
    requires |obs| == |skins| && |nows| == |skins|
    requires k !in skins
    ensures Get(Pass(m, skins, obs, nows), k) == Get(m, k)
  {
    if skins != [] {
      var n := |skins| - 1;
      assert k !in skins[..n] by {
        assert forall j :: 0 <= j < n ==> skins[..n][j] == skins[j];
      }
      PassKeepsUnwatched(m, skins[..n], obs[..n], nows[..n], k);
    }
  }

  /** A pass over more skins keeps the decisions of the steps it shares with a shorter one. */
  lemma DecisionsFront(m: map<string, Instant>, skins: seq<string>, obs: seq<Observation>,
                       nows: seq<Instant>, i: int)
    requires |obs| == |skins| && |nows| == |skins| && 0 <= i < |skins| - 1
    ensures var n := |skins| - 1;
      Decisions(m, skins, obs, nows)[i] == Decisions(m, skins[..n], obs[..n], nows[..n])[i]
  {
  }

  /**
   * Every entry after a pass was there before or is the time of a step in
   * the pass that dispatched an alert for that skin and had it delivered.
   */
  lemma {:induction false} PassStampsOnlyDeliveries(m: map<string, Instant>, skins: seq<string>,
                                                   obs: seq<Observation>, nows: seq<Instant>, k: string)
    requires |obs| == |skins| && |nows| == |skins|
    requires k in Pass(m, skins, obs, nows)
    ensures || (k in m && Pass(m, skins, obs, nows)[k] == m[k])
            || (exists i :: 0 <= i < |skins| && skins[i] == k && Decisions(m, skins, obs, nows)[i].Dispatch? &&
                  obs[i].sent && Pass(m, skins, obs, nows)[k] == nows[i])
  {
    if skins != [] {
      var n := |skins| - 1;
      var before := Pass(m, skins[..n], obs[..n], nows[..n]);
      StepChanges(before, skins[n], obs[n], nows[n]);
      if k == skins[n] && Step(before, skins[n], obs[n], nows[n]) != before {
        assert Pass(m, skins, obs, nows)[k] == nows[n];
        assert Decisions(m, skins, obs, nows)[n] == StepDecision(before, skins[n], obs[n], nows[n]);
      } else {
        assert k in before && Pass(m, skins, obs, nows)[k] == before[k];
        PassStampsOnlyDeliveries(m, skins[..n], obs[..n], nows[..n], k);
        if !(k in m && before[k] == m[k]) {
          var i :| 0 <= i < n && skins[..n][i] == k && Decisions(m, skins[..n], obs[..n], nows[..n])[i].Dispatch? &&
            obs[..n][i].sent && before[k] == nows[..n][i];
          DecisionsFront(m, skins, obs, nows, i);
          assert skins[i] == k && obs[i].sent && before[k] == nows[i];
        }
      }
    }
  }
}
