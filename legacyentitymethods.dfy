/**
 * The members of the legacy `GameEngine.Entity` as methods on a `LegacyWorld`: the receiver is the
 * handle `e`. Each method is proved to compute the function of `LegacyEntities` that describes it.
 */
module LegacyEntityMethods {
  import opened Outcomes
  import opened Sequences
  import opened LegacyNodes
  import opened LegacyLinks
  import LegacyEntities
  import LegacyComponentMethods

  /** `e.AddComponent(comp)`. */
  method AddComponent(w: LegacyWorld, e: LEId, comp: LCId, ghost rank: map<LCId, nat>) returns (ok: bool)
    requires Ranked(w.State(), rank)
    modifies w
    ensures LegacyEntities.Reply(ok, w.State()) == LegacyEntities.AddComponent(old(w.State()), e, comp, rank)
  {
    var n := w.C(comp);
    if n.ParentObject == Some(e) && n.Parent.None? {
      return true;
    }
    if n.ParentObject.Some? {
      return false;
    }
    ghost var g := w.State();
    var m := w.E(e);
    w.SetEntity(e, m.(Components := m.Components + [comp]));
    RankedAfterEntityWrite(g, e, m.(Components := m.Components + [comp]), rank);
    LegacyComponentMethods.AttachToInternal(w, comp, Some(e), rank);
    return true;
  }

  /** `e.RemoveComponent(comp)`. */
  method RemoveComponent(w: LegacyWorld, e: LEId, comp: LCId, ghost rank: map<LCId, nat>) returns (ok: bool)
    requires Ranked(w.State(), rank)
    modifies w
    ensures LegacyEntities.Reply(ok, w.State()) == LegacyEntities.RemoveComponent(old(w.State()), e, comp, rank)
  {
    var n := w.C(comp);
    if n.ParentObject != Some(e) || n.Parent.Some? {
      return false;
    }
    ghost var g := w.State();
    var m := w.E(e);
    w.SetEntity(e, m.(Components := RemoveFirst(m.Components, comp)));
    RankedAfterEntityWrite(g, e, m.(Components := RemoveFirst(m.Components, comp)), rank);
    LegacyComponentMethods.DetatchInternal(w, comp, rank);
    var after := w.E(e);
    if after.Transform == Some(comp) {
      w.SetEntity(e, after.(Transform := None));
    }
    return true;
  }

  /** `e.AddTransform(comp)`. */
  method AddTransform(w: LegacyWorld, e: LEId, comp: LCId, ghost rank: map<LCId, nat>) returns (ok: bool)
    requires Ranked(w.State(), rank)
    modifies w
    ensures LegacyEntities.Reply(ok, w.State()) == LegacyEntities.AddTransform(old(w.State()), e, comp, rank)
  {
    var n := w.C(comp);
    if n.ParentObject == Some(e) {
      if n.Parent.Some? {
        return false;
      }
      w.SetEntity(e, w.E(e).(Transform := Some(comp)));
      return true;
    }
    if n.ParentObject.Some? {
      return false;
    }
    var _ := AddComponent(w, e, comp, rank);
    w.SetEntity(e, w.E(e).(Transform := Some(comp)));
    return true;
  }

  /** `e.RemoveComponentShallow(comp)` (`deep` false) and `e.RemoveComponentDeep(comp)` (`deep` true). */
  method RemoveComponentTree(w: LegacyWorld, e: LEId, comp: LCId, deep: bool, ghost rank: map<LCId, nat>)
    requires Ranked(w.State(), rank)
    modifies w
    ensures w.State() == LegacyEntities.RemoveComponentTree(old(w.State()), e, comp, deep, rank)
  {
    if w.C(comp).ParentObject != Some(e) {
      return;
    }
    ghost var g := w.State();
    var m := w.E(e);
    w.SetEntity(e, m.(Components := RemoveFirst(m.Components, comp)));
    RankedAfterEntityWrite(g, e, m.(Components := RemoveFirst(m.Components, comp)), rank);
    ghost var listed := w.State();
    LegacyComponentMethods.DetatchInternal(w, comp, rank);
    OwnersOnlyRanked(listed, w.State(), rank);
    LegacyComponentMethods.ClearChildren(w, comp, deep, rank);
  }

  /** `e.RemoveComponentShallow(comp)`. */
  method RemoveComponentShallow(w: LegacyWorld, e: LEId, comp: LCId, ghost rank: map<LCId, nat>)
    requires Ranked(w.State(), rank)
    modifies w
    ensures w.State() == LegacyEntities.RemoveComponentTree(old(w.State()), e, comp, false, rank)
  {
    RemoveComponentTree(w, e, comp, false, rank);
  }

  /** `e.RemoveComponentDeep(comp)`. */
  method RemoveComponentDeep(w: LegacyWorld, e: LEId, comp: LCId, ghost rank: map<LCId, nat>)
    requires Ranked(w.State(), rank)
    modifies w
    ensures w.State() == LegacyEntities.RemoveComponentTree(old(w.State()), e, comp, true, rank)
  {
    RemoveComponentTree(w, e, comp, true, rank);
  }

  /** `e.GetComponents()`. */
  method GetComponents(w: LegacyWorld, e: LEId) returns (r: seq<LCId>)
    ensures r == LegacyEntities.GetComponents(w.State(), e)
  {
    r := w.E(e).Components;
  }
}
