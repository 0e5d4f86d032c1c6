/** `startKeyUX(window, plugins)`: calls every plugin with the window and
    returns one function that calls every teardown the plugins returned.
    Plugins are code outside the model; what they do is seen only as the
    order of calls into them, recorded by a `Host`. */
module Plugins {
  import opened Env

  /** A plugin, known to the model by its identity. */
  type PluginId = nat

  /** The teardown function one call of a plugin returned: which plugin
      returned it, and which call into plugin code it came from. */
  datatype Unbind = Unbind(plugin: PluginId, call: nat)

  /** A call into plugin code. */
  datatype Event = Setup(plugin: PluginId, window: Window) | Teardown(unbind: Unbind)

  /** The plugin code and what it is observed to do: every call into it is
      appended to `trace`. The plugins in `throwing` throw when called. */
  class Host {
    var trace: seq<Event>
    var calls: nat
    const throwing: set<PluginId>

    constructor (throwing: set<PluginId>)
      ensures trace == [] && calls == 0 && this.throwing == throwing
    {
      trace := [];
      calls := 0;
      this.throwing := throwing;
    }

    /** `plugin(window)`: returns a new teardown, or throws. */
    method CallPlugin(plugin: PluginId, window: Window) returns (threw: bool, unbind: Unbind)
      modifies this
      ensures trace == old(trace) + [Setup(plugin, window)]
      ensures calls == old(calls) + 1
      ensures threw == (plugin in throwing)
      ensures unbind == Unbind(plugin, old(calls))
    {
      trace := trace + [Setup(plugin, window)];
      unbind := Unbind(plugin, calls);
      calls := calls + 1;
      threw := plugin in throwing;
    }

    /** `unbind()`. */
    method CallUnbind(unbind: Unbind)
      modifies this`trace
      ensures trace == old(trace) + [Teardown(unbind)]
    {
      trace := trace + [Teardown(unbind)];
    }
  }

  /** The events of calling each plugin, in order, with the same window. */
  function Setups(plugins: seq<PluginId>, window: Window): (events: seq<Event>)
    ensures |events| == |plugins|
  {
    if plugins == [] then [] else [Setup(plugins[0], window)] + Setups(plugins[1..], window)
  }

  /** The teardowns returned by calling `plugins` in order, the first of them
      being call number `first`. */
  function Unbinds(plugins: seq<PluginId>, first: nat): (unbinds: seq<Unbind>)
    ensures |unbinds| == |plugins|
  {
    if plugins == [] then [] else [Unbind(plugins[0], first)] + Unbinds(plugins[1..], first + 1)
  }

  /** The events of calling each teardown, in order. */
  function Teardowns(unbinds: seq<Unbind>): (events: seq<Event>)
    ensures |events| == |unbinds|
  {
    if unbinds == [] then [] else [Teardown(unbinds[0])] + Teardowns(unbinds[1..])
  }

  /** The position of the first plugin that throws, or |plugins| if none does. */
  function FirstThrowing(plugins: seq<PluginId>, throwing: set<PluginId>): (k: nat)
    ensures k <= |plugins|
    ensures forall i :: 0 <= i < k ==> plugins[i] !in throwing
    ensures k < |plugins| ==> plugins[k] in throwing
  {
    if plugins == [] || plugins[0] in throwing then 0
    else
      var k := FirstThrowing(plugins[1..], throwing);
      assert forall i :: 1 <= i < k + 1 ==> plugins[i] == plugins[1..][i - 1];
      k + 1
  }

  lemma {:induction false} SetupsAppend(plugins: seq<PluginId>, p: PluginId, window: Window)
    ensures Setups(plugins + [p], window) == Setups(plugins, window) + [Setup(p, window)]
    decreases |plugins|
  {
    if plugins != [] {
      assert (plugins + [p])[1..] == plugins[1..] + [p];
      SetupsAppend(plugins[1..], p, window);
    }
  }

  lemma {:induction false} UnbindsAppend(plugins: seq<PluginId>, p: PluginId, first: nat)
    ensures Unbinds(plugins + [p], first) == Unbinds(plugins, first) + [Unbind(p, first + |plugins|)]
    decreases |plugins|
  {
    if plugins != [] {
      assert (plugins + [p])[1..] == plugins[1..] + [p];
      UnbindsAppend(plugins[1..], p, first + 1);
    }
  }

  lemma {:induction false} TeardownsAppend(unbinds: seq<Unbind>, u: Unbind)
    ensures Teardowns(unbinds + [u]) == Teardowns(unbinds) + [Teardown(u)]
    decreases |unbinds|
  {
    if unbinds != [] {
      assert (unbinds + [u])[1..] == unbinds[1..] + [u];
      TeardownsAppend(unbinds[1..], u);
    }
  }

  /** The returned stop function: it holds the collected teardowns. */
  class Stop {
    const host: Host
    const unbinds: seq<Unbind>

    constructor (host: Host, unbinds: seq<Unbind>)
      ensures this.host == host && this.unbinds == unbinds
    {
      this.host := host;
      this.unbinds := unbinds;
    }

    /** Calls every collected teardown, in the order they were collected. It
        keeps no state of its own, so every call does all of them again. */
    method Call()
      modifies host`trace
      ensures host.trace == old(host.trace) + Teardowns(unbinds)
    {
      var i := 0;
      while i < |unbinds|
        invariant 0 <= i <= |unbinds|
        invariant host.trace == old(host.trace) + Teardowns(unbinds[..i])
      {
        host.CallUnbind(unbinds[i]);
        TeardownsAppend(unbinds[..i], unbinds[i]);
        assert unbinds[..i + 1] == unbinds[..i] + [unbinds[i]];
        i := i + 1;
      }
      assert unbinds[..i] == unbinds;
    }
  }

  /** `startKeyUX(window, plugins)`: calls the plugins in order with the same
      window and collects their teardowns. If a plugin throws, the exception
      propagates (`null` here): the plugins before it stay set up, the ones
      after it are never called. */
  method StartKeyUX(host: Host, window: Window, plugins: seq<PluginId>) returns (stop: Stop?)
    modifies host
    ensures var k := FirstThrowing(plugins, host.throwing);
            var called := if k < |plugins| then k + 1 else k;
            host.trace == old(host.trace) + Setups(plugins[..called], window) &&
            host.calls == old(host.calls) + called &&
            (stop != null <==> k == |plugins|)
    ensures stop != null ==> fresh(stop) && stop.host == host
    ensures stop != null ==> stop.unbinds == Unbinds(plugins, old(host.calls))
  {
    var unbinds: seq<Unbind> := [];
    var i := 0;
    while i < |plugins|
      invariant 0 <= i <= |plugins|
      invariant forall j :: 0 <= j < i ==> plugins[j] !in host.throwing
      invariant host.trace == old(host.trace) + Setups(plugins[..i], window)
      invariant host.calls == old(host.calls) + i
      invariant unbinds == Unbinds(plugins[..i], old(host.calls))
    {
      var threw, unbind := host.CallPlugin(plugins[i], window);
      SetupsAppend(plugins[..i], plugins[i], window);
      assert plugins[..i + 1] == plugins[..i] + [plugins[i]];
      if threw {
        FirstThrowingIs(plugins, host.throwing, i);
        return null;
      }
      UnbindsAppend(plugins[..i], plugins[i], old(host.calls));
      unbinds := unbinds + [unbind];
      i := i + 1;
    }
    assert plugins[..i] == plugins;
    FirstThrowingIs(plugins, host.throwing, i);
    stop := new Stop(host, unbinds);
  }

  /** The first throwing plugin is at `i` when none before `i` throws and
      the one at `i`, if any, does. */
  lemma FirstThrowingIs(plugins: seq<PluginId>, throwing: set<PluginId>, i: nat)
    requires i <= |plugins| && forall j :: 0 <= j < i ==> plugins[j] !in throwing
    requires i < |plugins| ==> plugins[i] in throwing
    ensures FirstThrowing(plugins, throwing) == i
  {
  }

  /** A whole session: start, then call the stop function twice. */
  method StartThenStopTwice(host: Host, window: Window, plugins: seq<PluginId>) returns (stop: Stop?)
    modifies host
    ensures stop != null ==>
              host.trace == old(host.trace) + Setups(plugins, window) +
                            Teardowns(Unbinds(plugins, old(host.calls))) +
                            Teardowns(Unbinds(plugins, old(host.calls)))
  {
    stop := StartKeyUX(host, window, plugins);
    if stop != null {
      assert plugins[..|plugins|] == plugins;
      stop.Call();
      stop.Call();
    }
  }

  /** Setup calls every plugin exactly once, in list order, with the same window. */
  lemma {:induction false} SetupsInOrder(plugins: seq<PluginId>, window: Window)
    ensures forall i :: 0 <= i < |plugins| ==> Setups(plugins, window)[i] == Setup(plugins[i], window)
    decreases |plugins|
  {
    if plugins != [] {
      SetupsInOrder(plugins[1..], window);
      var s := Setups(plugins, window);
      assert forall i :: 1 <= i < |plugins| ==> s[i] == Setups(plugins[1..], window)[i - 1];
    }
  }

  /** One teardown is collected per plugin, in plugin order, each from its own call. */
  lemma {:induction false} UnbindsInOrder(plugins: seq<PluginId>, first: nat)
    ensures forall i :: 0 <= i < |plugins| ==> Unbinds(plugins, first)[i] == Unbind(plugins[i], first + i)
    decreases |plugins|
  {
    if plugins != [] {
      UnbindsInOrder(plugins[1..], first + 1);
      var u := Unbinds(plugins, first);
      assert forall i :: 1 <= i < |plugins| ==> u[i] == Unbinds(plugins[1..], first + 1)[i - 1];
    }
  }

  lemma {:induction false} TeardownsInOrder(unbinds: seq<Unbind>)
    ensures forall i :: 0 <= i < |unbinds| ==> Teardowns(unbinds)[i] == Teardown(unbinds[i])
    decreases |unbinds|
  {
    if unbinds != [] {
      TeardownsInOrder(unbinds[1..]);
      var t := Teardowns(unbinds);
      assert forall i :: 1 <= i < |unbinds| ==> t[i] == Teardowns(unbinds[1..])[i - 1];
    }
  }

  /** The stop function undoes the plugins in the order they were set up,
      not in reverse: its i-th call is the teardown that the i-th setup
      returned. */
  lemma TeardownMatchesSetup(plugins: seq<PluginId>, window: Window, first: nat)
    ensures var setups := Setups(plugins, window);
            var teardowns := Teardowns(Unbinds(plugins, first));
            forall i :: 0 <= i < |plugins| ==>
              setups[i] == Setup(plugins[i], window) &&
              teardowns[i] == Teardown(Unbind(plugins[i], first + i))
  {
    SetupsInOrder(plugins, window);
    UnbindsInOrder(plugins, first);
    TeardownsInOrder(Unbinds(plugins, first));
  }
}
