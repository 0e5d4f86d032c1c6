/** `likelyWithKeyboard`: an allow-by-default guess whether the device has a
    physical keyboard, from a denylist of touch-device user-agent tokens. */
module Keyboard {
  import opened Strings
  import opened Env

  /** The user-agent tokens, in lower case, that mark a touch device. */
  const Devices: seq<string> := ["iphone", "ipad", "android"]

  /** `devices.some(device => agent.includes(device))`, scanning in list order. */
  function SomeIncluded(devices: seq<string>, agent: string): (r: bool)
    ensures r <==> exists i :: 0 <= i < |devices| && Contains(agent, devices[i])
  {
    if |devices| == 0 then false
    else if Contains(agent, devices[0]) then true
    else
      var r := SomeIncluded(devices[1..], agent);
      assert forall i :: 1 <= i < |devices| ==> devices[i] == devices[1..][i - 1];
      r
  }

  /** `window.navigator.userAgent` is lower-cased and checked against the
      denylist: "no keyboard" exactly when the lower-cased user agent contains
      "iphone", "ipad" or "android". */
  function LikelyWithKeyboard(window: Window): (r: bool)
    ensures var agent := Lower(window.navigator.userAgent);
            !r <==> Contains(agent, "iphone") || Contains(agent, "ipad") || Contains(agent, "android")
  {
    var agent := Lower(window.navigator.userAgent);
    assert Contains(agent, "iphone") ==> Contains(agent, Devices[0]);
    assert Contains(agent, "ipad") ==> Contains(agent, Devices[1]);
    assert Contains(agent, "android") ==> Contains(agent, Devices[2]);
    !SomeIncluded(Devices, agent)
  }

  /** Two strings that agree up to ASCII letter case. */
  predicate SameIgnoringCase(u: string, v: string)
  {
    |u| == |v| && forall i :: 0 <= i < |u| ==> LowerChar(u[i]) == LowerChar(v[i])
  }

  /** Two strings lower-case to the same string exactly when they agree up
      to ASCII letter case. */
  lemma LowerEqualIffSameIgnoringCase(u: string, v: string)
    ensures Lower(u) == Lower(v) <==> SameIgnoringCase(u, v)
  {
    if Lower(u) == Lower(v) {
      assert forall i :: 0 <= i < |u| ==> LowerChar(u[i]) == Lower(u)[i] == Lower(v)[i] == LowerChar(v[i]);
    }
    if SameIgnoringCase(u, v) {
      assert forall i :: 0 <= i < |u| ==> Lower(u)[i] == Lower(v)[i];
    }
  }

  /** The result ignores the letter case of the user agent. */
  lemma LikelyWithKeyboardIgnoresCase(w1: Window, w2: Window)
    requires SameIgnoringCase(w1.navigator.userAgent, w2.navigator.userAgent)
    ensures LikelyWithKeyboard(w1) == LikelyWithKeyboard(w2)
  {
    LowerEqualIffSameIgnoringCase(w1.navigator.userAgent, w2.navigator.userAgent);
  }

  /** A user agent that spells "android" in any mix of letter case means "no keyboard". */
  lemma AndroidAnyCaseHasNoKeyboard(window: Window, i: nat)
    requires i + 7 <= |window.navigator.userAgent|
    requires Lower(window.navigator.userAgent[i..i + 7]) == "android"
    ensures !LikelyWithKeyboard(window)
  {
    var ua := window.navigator.userAgent;
    var agent := Lower(ua);
    forall j | 0 <= j < 7 ensures agent[i..i + 7][j] == "android"[j] {
      assert agent[i + j] == LowerChar(ua[i + j]) == Lower(ua[i..i + 7])[j];
    }
    assert OccursAt(agent, "android", i);
  }

  /** A user agent in which none of the three tokens appears, in any case,
      means "keyboard likely". */
  lemma NoDeviceTokenHasKeyboard(window: Window)
    requires var agent := Lower(window.navigator.userAgent);
             !Contains(agent, "iphone") && !Contains(agent, "ipad") && !Contains(agent, "android")
    ensures LikelyWithKeyboard(window)
  {
  }
}
