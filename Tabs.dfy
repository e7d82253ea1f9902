/** Tabbed content: clicking a `.tab` trigger makes it the only active
    trigger and shows the panel whose id is its `data-tab`. */
module Tabs {
  import opened JsBuiltins
  import Flags

  /** A `.tab` trigger: its `data-tab` value and whether it has the `active` class. */
  datatype Trigger = Trigger(tab: string, active: bool)

  /** A `.tab-content` panel: its `id` and whether it has the `active` class. */
  datatype Panel = Panel(id: string, active: bool)

  /** `document.getElementById(id)` among the panels: the first one with that id. */
  function PanelById(panels: seq<Panel>, id: string): (r: Option<nat>)
    ensures r.Some? ==> r.value < |panels| && panels[r.value].id == id
    ensures r.Some? ==> forall j :: 0 <= j < r.value ==> panels[j].id != id
    ensures r.None? <==> forall j :: 0 <= j < |panels| ==> panels[j].id != id
  {
    var ids := seq(|panels|, j requires 0 <= j < |panels| => panels[j].id);
    assert forall j :: 0 <= j < |panels| ==> ids[j] == panels[j].id;
    FindFirst(ids, id)
  }

  /** The lookup depends on the panels' ids only. */
  lemma SameIdsSamePanel(ps: seq<Panel>, qs: seq<Panel>, id: string)
    requires |ps| == |qs| && forall j :: 0 <= j < |ps| ==> ps[j].id == qs[j].id
    ensures PanelById(ps, id) == PanelById(qs, id)
  {
    var a, b := PanelById(ps, id), PanelById(qs, id);
    if a.Some? && b.Some? {
      assert !(a.value < b.value) && !(b.value < a.value);
    }
  }

  /** The triggers after a click on trigger `t`. */
  function Selected(triggers: seq<Trigger>, t: nat): (r: seq<Trigger>)
    ensures |r| == |triggers|
    ensures forall j :: 0 <= j < |triggers| ==> r[j].tab == triggers[j].tab && (r[j].active <==> j == t)
  {
    seq(|triggers|, j requires 0 <= j < |triggers| => triggers[j].(active := j == t))
  }

  /** The panels after a click on a trigger whose `data-tab` is `id`. */
  function Shown(panels: seq<Panel>, id: string): (r: seq<Panel>)
    ensures |r| == |panels|
    ensures forall j :: 0 <= j < |panels| ==> r[j].id == panels[j].id && (r[j].active <==> PanelById(panels, id) == Some(j))
  {
    seq(|panels|, j requires 0 <= j < |panels| => panels[j].(active := PanelById(panels, id) == Some(j)))
  }

  function ActiveTriggers(triggers: seq<Trigger>): nat
  {
    Flags.CountSet(seq(|triggers|, j requires 0 <= j < |triggers| => triggers[j].active))
  }

  function ActivePanels(panels: seq<Panel>): nat
  {
    Flags.CountSet(seq(|panels|, j requires 0 <= j < |panels| => panels[j].active))
  }

  /** After a click exactly one trigger is active; one panel is active when
      some panel has the trigger's id, and none otherwise. */
  lemma ClickLeavesOne(triggers: seq<Trigger>, panels: seq<Panel>, t: nat)
    requires t < |triggers|
    ensures ActiveTriggers(Selected(triggers, t)) == 1
    ensures var id := triggers[t].tab;
      ActivePanels(Shown(panels, id)) == if exists j :: 0 <= j < |panels| && panels[j].id == id then 1 else 0
  {
    var r := Selected(triggers, t);
    Flags.CountOnlyAt(seq(|r|, j requires 0 <= j < |r| => r[j].active), t);
    var id := triggers[t].tab;
    var p := Shown(panels, id);
    var flags := seq(|p|, j requires 0 <= j < |p| => p[j].active);
    match PanelById(panels, id)
    case None => Flags.CountNone(flags);
    case Some(i) => Flags.CountOnlyAt(flags, i);
  }

  /** The tab widget's state: all triggers and all panels of the page. */
  class TabSet {
    var triggers: seq<Trigger>
    var panels: seq<Panel>

    /** Before any click, whatever the markup declares active stays. */
    constructor (triggers0: seq<Trigger>, panels0: seq<Panel>)
      ensures triggers == triggers0 && panels == panels0
    {
      triggers, panels := triggers0, panels0;
    }

    /** `click` on trigger `t`: clear every trigger and every panel, then
        mark the trigger and the panel found by its `data-tab`. */
    method Click(t: nat)
      requires t < |triggers|
      modifies this
      ensures triggers == Selected(old(triggers), t)
      ensures panels == Shown(old(panels), old(triggers)[t].tab)
    {
      var k := 0;
      while k < |triggers|
        invariant k <= |triggers| == |old(triggers)|
        invariant forall j :: 0 <= j < k ==> triggers[j] == old(triggers)[j].(active := false)
        invariant forall j :: k <= j < |triggers| ==> triggers[j] == old(triggers)[j]
        invariant panels == old(panels)
      {
        triggers := triggers[k := triggers[k].(active := false)];
        k := k + 1;
      }
      k := 0;
      while k < |panels|
        invariant k <= |panels| == |old(panels)|
        invariant forall j :: 0 <= j < k ==> panels[j] == old(panels)[j].(active := false)
        invariant forall j :: k <= j < |panels| ==> panels[j] == old(panels)[j]
        invariant |triggers| == |old(triggers)|
        invariant forall j :: 0 <= j < |triggers| ==> triggers[j] == old(triggers)[j].(active := false)
      {
        panels := panels[k := panels[k].(active := false)];
        k := k + 1;
      }
      triggers := triggers[t := triggers[t].(active := true)];
      var id := triggers[t].tab;
      var found := PanelById(panels, id);
      if found.Some? {
        panels := panels[found.value := panels[found.value].(active := true)];
      }
      assert forall j :: 0 <= j < |triggers| ==> triggers[j] == Selected(old(triggers), t)[j];
      SameIdsSamePanel(panels, old(panels), id);
      assert forall j :: 0 <= j < |panels| ==> panels[j] == Shown(old(panels), id)[j];
    }
  }
}
