/**
 * The display and GPU probes. The operating system's screen list and device
 * registry are inputs: a screen is its frame size and its optional refresh
 * rate, and a registry service is its optional "model" string property.
 */
module Devices {
  import opened Options
  import opened Numeric
  import opened Text

  type UInt16 = x: int | 0 <= x < 0x1_0000

  /** A display as the probe reports it. */
  datatype SystemDisplay = SystemDisplay(width: UInt16, height: UInt16, refreshRate: Option<UInt16>, index: int)

  /** A GPU as the probe reports it. */
  datatype SystemGPU = SystemGPU(name: string, integrated: bool)

  /** What the probe reads from one screen: its frame size and its "NSDeviceRefreshRate" entry, if any. */
  datatype Screen = Screen(width: real, height: real, refreshRate: Option<real>)

  /**
   * `UInt16(...)` traps unless the truncated width and height fit in 16
   * unsigned bits, and `Int16(...)` traps unless the truncated rate fits in
   * 16 signed bits.
   */
  predicate SizeConvertible(screen: Screen): (b: bool)
    ensures b <==> 0 <= Trunc(screen.width) < 0x1_0000 && 0 <= Trunc(screen.height) < 0x1_0000
  {
    TruncInRange(screen.width, 0, 0xFFFF);
    TruncInRange(screen.height, 0, 0xFFFF);
    -1.0 < screen.width < 65536.0 && -1.0 < screen.height < 65536.0
  }

  predicate RateConvertible(rate: Option<real>): (b: bool)
    ensures b <==> rate.None? || -0x8000 <= Trunc(rate.value) < 0x8000
  {
    match rate
    case None => true
    case Some(v) => TruncInRange(v, -0x8000, 0x7FFF); -32769.0 < v < 32768.0
  }

  /**
   * The refresh-rate rule: a missing rate counts as -1; the rate is
   * truncated to an integer and kept only when that integer is positive.
   */
  function RefreshRate(rate: Option<real>): (r: Option<UInt16>)
    requires RateConvertible(rate)
    ensures r.Some? <==> rate.Some? && Trunc(rate.value) > 0
    ensures r.Some? ==> r.value == Trunc(rate.value) && 0 < r.value < 32768
  {
    var truncated := Trunc(rate.GetOr(-1.0));
    if truncated > 0 then Some(truncated) else None
  }

  /**
   * `displays`: one entry per screen, in enumeration order; entry `i` has
   * index `i`, the screen's truncated size and its refresh rate by the rule
   * above.
   */
  method Displays(screens: seq<Screen>) returns (displayList: seq<SystemDisplay>)
    requires forall i :: 0 <= i < |screens| ==> SizeConvertible(screens[i])
    requires forall i :: 0 <= i < |screens| ==> RateConvertible(screens[i].refreshRate)
    ensures |displayList| == |screens|
    ensures forall i :: 0 <= i < |screens| ==>
      && displayList[i].index == i
      && displayList[i].width == Trunc(screens[i].width)
      && displayList[i].height == Trunc(screens[i].height)
      && displayList[i].refreshRate == RefreshRate(screens[i].refreshRate)
  {
    displayList := [];
    for index := 0 to |screens|
      invariant |displayList| == index
      invariant forall i :: 0 <= i < index ==>
        && displayList[i].index == i
        && displayList[i].width == Trunc(screens[i].width)
        && displayList[i].height == Trunc(screens[i].height)
        && displayList[i].refreshRate == RefreshRate(screens[i].refreshRate)
    {
      var screen := screens[index];
      var display := SystemDisplay(Trunc(screen.width), Trunc(screen.height), RefreshRate(screen.refreshRate), index);
      displayList := displayList + [display];
    }
  }

  /** The integrated-GPU heuristic: the model names Intel or Apple, case-sensitively. */
  function IsIntegrated(model: string): (b: bool)
    ensures b <==> exists i: nat :: OccursAt(model, "Intel", i) || OccursAt(model, "Apple", i)
  {
    ContainsIff(model, "Intel");
    ContainsIff(model, "Apple");
    Contains(model, "Intel") || Contains(model, "Apple")
  }

  /** The model strings of the services that have one, in registry order. */
  function Models(services: seq<Option<string>>): (r: seq<string>)
    ensures |r| <= |services|
  {
    if services == [] then []
    else
      var last := services[|services| - 1];
      Models(services[..|services| - 1]) + (if last.Some? then [last.value] else [])
  }

  /** The positions of the services that have a model string, in increasing order. */
  function ModelPositions(services: seq<Option<string>>): (p: seq<nat>)
    ensures forall k :: 0 <= k < |p| ==> p[k] < |services| && services[p[k]].Some?
    ensures forall k, l :: 0 <= k < l < |p| ==> p[k] < p[l]
    ensures forall i :: 0 <= i < |services| && services[i].Some? ==> i in p
  {
    if services == [] then []
    else
      var n := |services| - 1;
      var front := ModelPositions(services[..n]);
      assert forall i :: 0 <= i < n ==> services[..n][i] == services[i];
      front + (if services[n].Some? then [n] else [])
  }

  /**
   * The model strings are exactly the strings of the services that have one,
   * in registry order: the `k`th model string belongs to the `k`th such service.
   */
  lemma {:induction false} ModelsAtPositions(services: seq<Option<string>>)
    ensures |Models(services)| == |ModelPositions(services)|
    ensures forall k :: 0 <= k < |Models(services)| ==>
      Models(services)[k] == services[ModelPositions(services)[k]].value
  {
    if services != [] {
      var n := |services| - 1;
      var front := services[..n];
      ModelsAtPositions(front);
      ModelsStep(services);
      var models, positions := Models(services), ModelPositions(services);
      var m := |Models(front)|;
      forall k | 0 <= k < |models| ensures models[k] == services[positions[k]].value {
        if k < m {
          assert models[k] == Models(front)[k];
          assert positions[k] == ModelPositions(front)[k] < n;
          assert front[positions[k]] == services[positions[k]];
        }
      }
    }
  }

  /** The last service adds its model string, if it has one, after those of the others; likewise its position. */
  lemma ModelsStep(services: seq<Option<string>>)
    requires services != []
    ensures var n := |services| - 1;
      && Models(services) == Models(services[..n]) + (if services[n].Some? then [services[n].value] else [])
      && ModelPositions(services) == ModelPositions(services[..n]) + (if services[n].Some? then [n] else [])
  {
  }


  /**
   * `gpus`: when matching succeeds, one entry per service with a model
   * string, in registry order, classified by the integrated heuristic; no
   * entries when matching fails.
   */
  method Gpus(matched: bool, services: seq<Option<string>>) returns (gpuInfos: seq<SystemGPU>)
    ensures !matched ==> gpuInfos == []
    ensures matched ==> |gpuInfos| == |Models(services)|
    ensures matched ==> forall k :: 0 <= k < |gpuInfos| ==>
      gpuInfos[k].name == Models(services)[k] && gpuInfos[k].integrated == IsIntegrated(gpuInfos[k].name)
  {
    gpuInfos := [];
    if matched {
      var i := 0;
      while i < |services|
        invariant 0 <= i <= |services|
        invariant |gpuInfos| == |Models(services[..i])|
        invariant forall k :: 0 <= k < |gpuInfos| ==>
          gpuInfos[k].name == Models(services[..i])[k] && gpuInfos[k].integrated == IsIntegrated(gpuInfos[k].name)
      {
        assert services[..i + 1][..i] == services[..i];
        var service := services[i];
        if service.Some? {
          var model := service.value;
          var integrated := IsIntegrated(model);
          gpuInfos := gpuInfos + [SystemGPU(model, integrated)];
        }
        i := i + 1;
      }
      assert services[..i] == services;
    }
  }

  lemma IntelIsIntegrated()
    ensures IsIntegrated("Intel UHD Graphics")
  {
    assert OccursAt("Intel UHD Graphics", "Intel", 0);
  }

  lemma RadeonIsDiscrete()
    ensures !IsIntegrated("AMD Radeon Pro")
  {
    NoIntelInRadeon();
    NoAppleInRadeon();
  }

  /** "AMD Radeon Pro" has no "I", so "Intel" cannot occur in it. */
  lemma NoIntelInRadeon()
    ensures forall i: nat :: !OccursAt("AMD Radeon Pro", "Intel", i)
  {
    assert "Intel"[0] !in "AMD Radeon Pro";
    MissingCharNoOccurrence("AMD Radeon Pro", "Intel", 0);
  }

  /** "AMD Radeon Pro" has no lower-case "p", so "Apple" cannot occur in it. */
  lemma NoAppleInRadeon()
    ensures forall i: nat :: !OccursAt("AMD Radeon Pro", "Apple", i)
  {
    assert "Apple"[1] !in "AMD Radeon Pro";
    MissingCharNoOccurrence("AMD Radeon Pro", "Apple", 1);
  }
}
