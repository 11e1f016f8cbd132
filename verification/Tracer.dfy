/** vm/tracer.go: the tracer that ties the call tree and the storage keys together. */
module Tracer {
  import opened Uint
  import opened CallTree
  import S = StateChanges

  /** CurrentCallIndex: outside of any call it reads as zero. */
  function IndexIn(t: Tree): (i: nat) {
    if t.current == None then 0 else t.current.value
  }

  /** What the journal instructions and the call entry points ask of the tracer. */
  datatype Event =
    | Enter
    | Leave(gas: U64, ret: seq<Byte>, failed: bool)
    | Key(account: S.Address, parent: Option<Word>, self: Word, offset: Option<Word>,
          typeId: S.Hash, parentTypeId: S.Hash, data: S.Name)
    | Change(account: S.Address, slot: Word, offset: Option<Word>, typeId: S.Hash, value: S.Name)
    | Balance(account: S.Address, value: S.Name)   // four of these around a recorded transfer

  /** The key an event saves to: the named entry, or the account's root for a balance. */
  ghost predicate Names(e: Event, key: S.StorageKey) {
    if e.Balance? then key.isRoot && key.account == e.account
    else
      && e.Change? && !key.isRoot && key.account == e.account && key.slot == e.slot
      && key.offset == S.StateChanges.OffsetOf(e.offset) && key.typeId == e.typeId
  }

  /** The declaration in a key event. */
  function DeclOf(e: Event): (x: S.Decl)
    requires e.Key? && S.StateChanges.OffsetOf(e.offset) <= 31
  {
    S.Decl(e.account, S.StateChanges.ParentId(e.parent, e.parentTypeId),
           (e.self, S.StateChanges.OffsetOf(e.offset)), e.typeId, e.data)
  }

  /** The declarations in a list of events; one with its offset out of range is none. */
  ghost function Decls(events: seq<Event>): (d: set<S.Decl>) {
    if events == [] then {}
    else
      var e := events[|events| - 1];
      Decls(events[..|events| - 1]) + if e.Key? && S.StateChanges.OffsetOf(e.offset) <= 31 then {DeclOf(e)} else {}
  }

  /** The keys that can be found, and the declarations accepted. */
  datatype Keys = Keys(known: set<S.IndexKey>, decls: set<S.Decl>)

  /** A key event is accepted: its offset is in range, and its parent is the root or known. */
  predicate Accepts(e: Event, known: set<S.IndexKey>) {
    && e.Key? && S.StateChanges.OffsetOf(e.offset) <= 31
    && (e.parent.Some? ==> (e.account, e.parent.value, 0, e.parentTypeId) in known)
  }

  /** An event saves a value: a balance always, a change when its key is known. */
  predicate Saves(e: Event, known: set<S.IndexKey>) {
    || e.Balance?
    || (e.Change? && S.StateChanges.OffsetOf(e.offset) <= 31
        && (e.account, e.slot, S.StateChanges.OffsetOf(e.offset), e.typeId) in known)
  }

  /** An accepted key at a place not given out before becomes known. */
  ghost function Declare(s: Keys, e: Event): (r: Keys) {
    if Accepts(e, s.known) then
      Keys(s.known + (if S.Taken(s.decls, DeclOf(e)) then {} else {DeclOf(e).Entry()}), s.decls + {DeclOf(e)})
    else s
  }

  ghost function DeclareAll(s: Keys, events: seq<Event>): (r: Keys)
    ensures r.decls <= s.decls + Decls(events)
  {
    if events == [] then s else Declare(DeclareAll(s, events[..|events| - 1]), events[|events| - 1])
  }

  /** Every accepted declaration fits those before it. */
  ghost predicate AllFit(s: Keys, events: seq<Event>) {
    events == []
    || (var n := |events| - 1;
        var before := DeclareAll(s, events[..n]);
        AllFit(s, events[..n])
        && (Accepts(events[n], before.known) ==> S.Fits(before.decls, before.known, DeclOf(events[n]))))
  }

  /** What an event does to the call tree. */
  function Apply(t: Tree, e: Event): (u: Tree)
    requires t.Valid()
    ensures u.Valid()
  {
    match e
    case Enter => AddKeepsValid(t); t.Add()
    case Leave(_, _, _) => ExitKeepsValid(t); t.Exit()
    case Key(_, _, _, _, _, _, _) => t
    case Change(_, _, _, _, _) => t
    case Balance(_, _) => t
  }

  /** The call tree after a list of events. */
  function Replay(t: Tree, events: seq<Event>): (u: Tree)
    requires t.Valid()
    ensures u.Valid()
  {
    if events == [] then t else Apply(Replay(t, events[..|events| - 1]), events[|events| - 1])
  }

  /** The k-th event was saved: to the key it names, with its value, under the call current at that event. */
  ghost predicate Logs(t: Tree, events: seq<Event>, k: nat, save: S.Save)
    requires t.Valid()
  {
    && k < |events| && Names(events[k], save.key) && save.value == events[k].value
    && save.callIdx == IndexIn(Replay(t, events[..k]))
  }

  /** The l-th event saves, given the keys known at that event. */
  ghost predicate SavesAt(s: Keys, events: seq<Event>, l: nat)
    requires l < |events|
  {
    Saves(events[l], DeclareAll(s, events[..l]).known)
  }

  /** What the first k events have done to the log: each that saves is in it, in order, and nothing else is. */
  ghost predicate LogStory(t: Tree, s: Keys, events: seq<Event>, k: nat, log0: seq<S.Save>, log: seq<S.Save>,
                           when: seq<nat>)
    requires t.Valid()
  {
    && k <= |events| && log0 <= log && |when| == |log| - |log0|
    && (forall l :: 0 <= l < k ==> (l in when <==> SavesAt(s, events, l)))
    && (forall j :: 0 <= j < |when| ==> when[j] < k)
    && (forall i, j :: 0 <= i < j < |when| ==> when[i] < when[j])
    && (forall j :: 0 <= j < |when| ==> Logs(t, events, when[j], log[|log0| + j]))
  }

  lemma LogStoryGoesOn(t: Tree, s: Keys, events: seq<Event>, k: nat, log0: seq<S.Save>, log: seq<S.Save>,
                       when: seq<nat>, saved: bool, longer: seq<S.Save>)
    requires t.Valid() && LogStory(t, s, events, k, log0, log, when) && k < |events|
    requires saved <==> SavesAt(s, events, k)
    requires saved ==> |longer| == |log| + 1 && log <= longer && Logs(t, events, k, longer[|log|])
    requires !saved ==> longer == log
    ensures LogStory(t, s, events, k + 1, log0, longer, if saved then when + [k] else when)
  {
    hide SavesAt, Logs, Tree.Valid;
    if saved {
      var after := when + [k];
      assert after[|when|] == k;
      forall l | 0 <= l < k ensures l in after <==> SavesAt(s, events, l) {
        assert l in after <==> l in when;
      }
      forall j | 0 <= j < |after| ensures Logs(t, events, after[j], longer[|log0| + j]) {
        if j < |when| {
          assert after[j] == when[j] && longer[|log0| + j] == log[|log0| + j];
        }
      }
    }
  }

  lemma LogStoryBegins(t: Tree, s: Keys, events: seq<Event>, log: seq<S.Save>)
    requires t.Valid()
    ensures LogStory(t, s, events, 0, log, log, [])
  {
  }

  /** The tracer.  The call tree is held as a value; the class CallTree refines it. */
  class Tracer {
    const states: S.StateChanges
    var calls: Tree

    ghost predicate Valid()
      reads this, states, states.nodes, states.made
    {
      states.Valid() && calls.Valid()
    }

    constructor ()
      ensures Valid() && fresh(states)
      ensures states.log == [] && calls == Tree([], None)
    {
      states := new S.StateChanges();
      calls := Tree([], None);
    }

    /** SaveStateChange: a successful save is logged under the call being executed. */
    method SaveStateChange(account: S.Address, slot: Word, offset: Option<Word>, typeId: S.Hash, newVal: S.Name)
      returns (ok: bool)
      requires Valid()
      modifies states`log, states.nodes`changes, states.nodes`nodeType
      ensures Valid()
      ensures var o := S.StateChanges.OffsetOf(offset);
        if o <= 31 && states.FindKey(account, slot, o, typeId) != null
        then ok && states.log == old(states.log)
                     + [S.Save(states.FindKey(account, slot, o, typeId), IndexIn(calls), newVal)]
        else !ok && states.log == old(states.log)
      ensures states.Agree() <==> old(states.Agree())
    {
      hide Tree.Valid, S.StateChanges.Valid;
      ok := states.SaveChange(account, slot, offset, typeId, IndexIn(calls), newVal);
    }

    ghost function Declared(): (s: Keys)
      reads this, states
    {
      Keys(states.index.Keys, states.declared)
    }

    /** One event. */
    method Do(e: Event) returns (saved: bool)
      requires Valid()
      modifies this, states, states.nodes
      ensures Valid() && calls == Apply(old(calls), e)
      ensures fresh(states.nodes - old(states.nodes))
      ensures saved <==> Saves(e, old(states.index.Keys))
      ensures Declared() == Declare(old(Declared()), e)
      ensures states.Agree() <==>
        old(states.Agree())
        && (Accepts(e, old(Declared()).known) ==> S.Fits(old(Declared()).decls, old(Declared()).known, DeclOf(e)))
      ensures saved ==> |states.log| == |old(states.log)| + 1 && old(states.log) <= states.log
      ensures saved ==>
        && Names(e, states.log[|states.log| - 1].key)
        && states.log[|states.log| - 1].value == e.value
        && states.log[|states.log| - 1].callIdx == IndexIn(old(calls))
      ensures !saved ==> states.log == old(states.log)
    {
      hide Tree.Valid, S.StateChanges.Valid;
      saved := false;
      match e {
        case Key(account, parent, self, offset, typeId, parentTypeId, data) =>
          var ok := states.SaveKey(account, parent, self, offset, typeId, parentTypeId, data);
          assert ok <==> Accepts(e, old(states.index.Keys));
        case Change(account, slot, offset, typeId, value) =>
          saved := SaveStateChange(account, slot, offset, typeId, value);
          if saved {
            states.FoundAsNamed(account, slot, S.StateChanges.OffsetOf(offset), typeId);
          }
        case Balance(account, value) =>
          states.SaveBalance(account, value, IndexIn(calls));
          states.RootOf(account);
          saved := true;
        case Enter =>
          calls := Apply(calls, e);
        case Leave(_, _, _) =>
          calls := Apply(calls, e);
      }
    }

    /** For any interleaving of calls, exits, key, value and balance saves: the call tree and the known keys are the
        replayed ones.  The log holds exactly the saves of balances and of values of keys known at their event, in
        order, each to the key it names and under the call that was current then, and a key's history under a call
        index is what the log has for it, repeats collapsed.  The two lookup routes agree at the end exactly when they
        did at the start and every accepted declaration fits those before it; if the declarations are a layout, they
        agree and find everything declared. */
    method Play(events: seq<Event>) returns (ghost when: seq<nat>)
      requires Valid()
      modifies this, states, states.nodes
      ensures Valid() && calls == Replay(old(calls), events) && Declared() == DeclareAll(old(Declared()), events)
      ensures LogStory(old(calls), old(Declared()), events, |events|, old(states.log), states.log, when)
      ensures forall save :: save in states.log ==> states.Live(save.key)
      ensures forall n, i :: n in states.nodes ==> n.History(i) == S.Collapse(S.Saved(states.log, n, i))
      ensures states.Agree() <==> old(states.Agree()) && AllFit(old(Declared()), events)
      ensures S.Layout(old(states.declared) + Decls(events)) ==>
        states.Agree() && forall x :: x in states.declared ==> x.Entry() in states.index
    {
      hide Tree.Valid, Apply, Declare, LogStory, S.StateChanges.TreeValid, S.StateChanges.NamesValid,
        S.StateChanges.IndexValid, S.StateChanges.LogValid, S.StateChanges.DeclValid, S.StateChanges.Agree, S.Layout,
        S.Fits;
      when := [];
      ghost var t, s, log0 := calls, Declared(), states.log;
      LogStoryBegins(t, s, events, log0);
      for k := 0 to |events|
        invariant Valid() && calls == Replay(t, events[..k]) && Declared() == DeclareAll(s, events[..k])
        invariant fresh(states.nodes - old(states.nodes))
        invariant states.Agree() <==> old(states.Agree()) && AllFit(s, events[..k])
        invariant LogStory(t, s, events, k, log0, states.log, when)
      {
        assert events[..k + 1][..k] == events[..k];
        ghost var log := states.log;
        var saved := Do(events[k]);
        LogStoryGoesOn(t, s, events, k, log0, log, when, saved, states.log);
        when := if saved then when + [k] else when;
      }
      assert events[..|events|] == events;
      HistoriesCollapsed(states);
      if S.Layout(old(states.declared) + Decls(events)) {
        S.LayoutShrinks(states.declared, old(states.declared) + Decls(events));
        LaidOut(states);
      }
    }
  }

  lemma LaidOut(states: S.StateChanges)
    requires states.Valid() && S.Layout(states.declared)
    ensures states.Agree() && forall x :: x in states.declared ==> x.Entry() in states.index
  {
  }

  lemma HistoriesCollapsed(states: S.StateChanges)
    requires states.LogValid()
    ensures forall save :: save in states.log ==> states.Live(save.key)
    ensures forall n, i :: n in states.nodes ==> n.History(i) == S.Collapse(S.Saved(states.log, n, i))
  {
  }
}
