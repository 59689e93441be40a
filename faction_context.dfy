/**
 * FactionContext: evaluating simulation code as if another faction were
 * the player's. Push saves the manager's player faction on a stack and
 * swaps the faction defs; Pop restores what Push saved. Factions that do
 * not take part (no faction, or a def that is neither MultiplayerColony
 * nor PlayerColony) push a null sentinel and change nothing.
 *
 * The first half is a value model of the state the operations touch (a
 * Snapshot); the second half is the heap model of the source's objects,
 * whose methods are proved to act on the heap as the value model says.
 */
module Factions {
  import opened Wrappers

  /** A faction def, identified by its defName. */
  datatype FactionDef = FactionDef(defName: string)

  /** Multiplayer.FactionDef, the def of every player faction but the acting one. */
  const MultiplayerColony: FactionDef := FactionDef("MultiplayerColony")

  /** FactionDefOf.PlayerColony, the def of the faction the game treats as the player. */
  const PlayerColony: FactionDef := FactionDef("PlayerColony")

  /** The defs for which Push substitutes identities. */
  predicate Participates(d: FactionDef) {
    d == MultiplayerColony || d == PlayerColony
  }

  class Faction {
    var def: FactionDef

    constructor (def: FactionDef)
      ensures this.def == def
    {
      this.def := def;
    }
  }

  /** The part of Verse's FactionManager that FactionContext uses. */
  class FactionManager {
    var ofPlayer: Faction

    constructor (ofPlayer: Faction)
      ensures this.ofPlayer == ofPlayer
    {
      this.ofPlayer := ofPlayer;
    }
  }

  // =====================================================================
  // Value model
  // =====================================================================

  /** The def of each faction of interest, the player faction, and the stack (top last). */
  datatype Snapshot = Snapshot(defs: map<Faction, FactionDef>, ofPlayer: Faction, stack: seq<Faction?>)

  /** FactionContext.Set: the old player faction becomes a MultiplayerColony, `f` the PlayerColony. */
  function SetStep(s: Snapshot, f: Faction): (r: Snapshot)
    ensures r.ofPlayer == f && r.stack == s.stack
    ensures f in r.defs && r.defs[f] == PlayerColony
    ensures s.ofPlayer != f ==> s.ofPlayer in r.defs && r.defs[s.ofPlayer] == MultiplayerColony
    ensures r.defs.Keys == s.defs.Keys + {s.ofPlayer, f}
    ensures forall g :: g in s.defs && g != f && g != s.ofPlayer ==> r.defs[g] == s.defs[g]
  {
    s.(defs := s.defs[s.ofPlayer := MultiplayerColony][f := PlayerColony], ofPlayer := f)
  }

  /** Push may only be asked about a faction whose def the snapshot records. */
  predicate Known(s: Snapshot, f: Faction?) {
    f == null || f in s.defs
  }

  /** Does Push of `f` take the sentinel path? */
  predicate IsSentinelPush(s: Snapshot, f: Faction?)
    requires Known(s, f)
  {
    f == null || !Participates(s.defs[f])
  }

  /** FactionContext.Push: the new snapshot and the returned faction. */
  function PushStep(s: Snapshot, f: Faction?): (r: (Snapshot, Faction?))
    requires Known(s, f)
    ensures r.1 == null || r.1 == f
    ensures r.0.stack == s.stack + [if r.1 == null then null else s.ofPlayer]
    ensures r.0.ofPlayer == if r.1 == null then s.ofPlayer else f
  {
    if IsSentinelPush(s, f) then (s.(stack := s.stack + [null]), null)
    else (SetStep(s.(stack := s.stack + [s.ofPlayer]), f), f)
  }

  /** FactionContext.Pop: None where `Stack.Pop` throws on an empty stack. */
  function PopStep(s: Snapshot): (r: Option<(Snapshot, Faction?)>)
    ensures r.None? <==> s.stack == []
    ensures r.Some? ==> r.value.1 == s.stack[|s.stack| - 1]
    ensures r.Some? ==> r.value.0.stack == s.stack[..|s.stack| - 1]
    ensures r.Some? ==> r.value.0.ofPlayer == if r.value.1 == null then s.ofPlayer else r.value.1
  {
    if s.stack == [] then None
    else
      var top := s.stack[|s.stack| - 1];
      var rest := s.(stack := s.stack[..|s.stack| - 1]);
      Some(if top == null then (rest, null) else (SetStep(rest, top), top))
  }

  /** The sentinel path pushes one null, returns null and changes nothing else. */
  lemma SentinelPush(s: Snapshot, f: Faction?)
    requires Known(s, f) && IsSentinelPush(s, f)
    ensures PushStep(s, f).1 == null
    ensures PushStep(s, f).0.stack == s.stack + [null]
    ensures PushStep(s, f).0.defs == s.defs && PushStep(s, f).0.ofPlayer == s.ofPlayer
  {
  }

  /** Popping a sentinel returns null and gives back exactly the snapshot before its push. */
  lemma SentinelPushPop(s: Snapshot, f: Faction?)
    requires Known(s, f) && IsSentinelPush(s, f)
    ensures PopStep(PushStep(s, f).0) == Some((s, null))
  {
    assert (s.stack + [null])[..|s.stack|] == s.stack;
  }

  /**
   * A participating push returns `f`, saves the old player faction on
   * top of the stack, makes `f` the PlayerColony player faction and the
   * old one a MultiplayerColony, and leaves every other def alone.
   */
  lemma ParticipatingPush(s: Snapshot, f: Faction?)
    requires Known(s, f) && !IsSentinelPush(s, f)
    requires s.ofPlayer in s.defs
    ensures var (t, r) := PushStep(s, f);
      && r == f
      && t.stack == s.stack + [s.ofPlayer]
      && t.ofPlayer == f && t.defs[f] == PlayerColony
      && (s.ofPlayer != f ==> t.defs[s.ofPlayer] == MultiplayerColony)
      && t.defs.Keys == s.defs.Keys
      && forall g :: g in s.defs && g != f && g != s.ofPlayer ==> t.defs[g] == s.defs[g]
  {
  }

  /** After a push, the matching pop always restores the stack and the player faction. */
  lemma PushPopRestoresPlayer(s: Snapshot, f: Faction?)
    requires Known(s, f)
    ensures PopStep(PushStep(s, f).0).Some?
    ensures var (t, r) := PopStep(PushStep(s, f).0).value;
      t.stack == s.stack && t.ofPlayer == s.ofPlayer && r == (if IsSentinelPush(s, f) then null else s.ofPlayer)
  {
    var t := PushStep(s, f).0;
    assert t.stack[..|t.stack| - 1] == s.stack;
  }

  /** The condition under which a participating push and its pop restore every def. */
  predicate RestoresDefs(s: Snapshot, f: Faction)
    requires s.ofPlayer in s.defs && f in s.defs
  {
    s.defs[s.ofPlayer] == PlayerColony && (f == s.ofPlayer || s.defs[f] == MultiplayerColony)
  }

  /**
   * For a participating faction, the push/pop pair is neutral exactly when
   * the player faction was a PlayerColony and `f` was the player faction
   * or a MultiplayerColony; otherwise some def is left changed.
   */
  lemma PushPopNeutralIff(s: Snapshot, f: Faction)
    requires s.ofPlayer in s.defs && f in s.defs && !IsSentinelPush(s, f)
    ensures PopStep(PushStep(s, f).0).Some?
    ensures PopStep(PushStep(s, f).0).value.0 == s <==> RestoresDefs(s, f)
  {
    var p := s.ofPlayer;
    PushPopRestoresPlayer(s, f);
    var t := PopStep(PushStep(s, f).0).value.0;
    assert t.ofPlayer == p && t.stack == s.stack;
    assert t.defs[p] == PlayerColony;
    assert f != p ==> t.defs[f] == MultiplayerColony;
    assert forall g :: g in s.defs && g != f && g != p ==> t.defs[g] == s.defs[g];
    assert t.defs.Keys == s.defs.Keys;
    if RestoresDefs(s, f) {
      assert t.defs == s.defs;
    }
  }

  /**
   * The arrangement the multiplayer game keeps: the player faction is the
   * one PlayerColony among the recorded factions, and every faction saved
   * on the stack is recorded.
   */
  ghost predicate Consistent(s: Snapshot) {
    && s.ofPlayer in s.defs
    && s.defs[s.ofPlayer] == PlayerColony
    && (forall g :: g in s.defs && g != s.ofPlayer ==> s.defs[g] != PlayerColony)
    && (forall i :: 0 <= i < |s.stack| && s.stack[i] != null ==> s.stack[i] in s.defs)
  }

  /** In a consistent snapshot every participating push is undone by its pop. */
  lemma ConsistentRestoresDefs(s: Snapshot, f: Faction)
    requires Consistent(s) && f in s.defs && !IsSentinelPush(s, f)
    ensures RestoresDefs(s, f)
  {
  }

  lemma PushKeepsConsistent(s: Snapshot, f: Faction?)
    requires Consistent(s) && Known(s, f)
    ensures Consistent(PushStep(s, f).0)
  {
    var t := PushStep(s, f).0;
    assert forall i :: 0 <= i < |s.stack| ==> t.stack[i] == s.stack[i];
  }

  lemma PopKeepsConsistent(s: Snapshot)
    requires Consistent(s) && s.stack != []
    ensures Consistent(PopStep(s).value.0)
  {
    var t := PopStep(s).value.0;
    assert forall i :: 0 <= i < |t.stack| ==> t.stack[i] == s.stack[i];
    assert s.stack[|s.stack| - 1] != null ==> s.stack[|s.stack| - 1] in s.defs;
  }

  // ---------------------------------------------------------------------
  // Nested scopes
  // ---------------------------------------------------------------------

  /** Code run under Push(faction), which may push further scopes, then Pop. */
  datatype Scope = Scope(faction: Faction?, body: seq<Scope>)

  /** The snapshot after running a scope; None if it names an unrecorded faction. */
  function RunScope(s: Snapshot, sc: Scope): Option<Snapshot>
    decreases sc
  {
    if !Known(s, sc.faction) then None
    else
      match RunScopes(PushStep(s, sc.faction).0, sc.body)
      case None => None
      case Some(inner) =>
        match PopStep(inner)
        case None => None
        case Some(popped) => Some(popped.0)
  }

  /** The snapshot after running scopes one after another. */
  function RunScopes(s: Snapshot, scs: seq<Scope>): Option<Snapshot>
    decreases scs
  {
    if scs == [] then Some(s)
    else
      match RunScope(s, scs[0])
      case None => None
      case Some(s1) => RunScopes(s1, scs[1..])
  }

  /** Every faction any scope pushes is in `known`. */
  ghost predicate AllKnown(known: set<Faction>, sc: Scope)
    decreases sc
  {
    (sc.faction == null || sc.faction in known) &&
    forall i :: 0 <= i < |sc.body| ==> AllKnown(known, sc.body[i])
  }

  /**
   * Balanced nesting is neutral: from a consistent snapshot, any tree of
   * push/pop scopes over recorded factions ends in the very same
   * snapshot, so the stack is as deep as before and every def and the
   * player faction are restored.
   */
  lemma {:induction false} ScopeNeutral(s: Snapshot, sc: Scope)
    requires Consistent(s) && AllKnown(s.defs.Keys, sc)
    ensures RunScope(s, sc) == Some(s)
    decreases sc
  {
    var pushed := PushStep(s, sc.faction).0;
    PushKeepsConsistent(s, sc.faction);
    PushPopRestoresPlayer(s, sc.faction);
    if !IsSentinelPush(s, sc.faction) {
      ConsistentRestoresDefs(s, sc.faction);
      PushPopNeutralIff(s, sc.faction);
    } else {
      SentinelPushPop(s, sc.faction);
    }
    assert pushed.defs.Keys == s.defs.Keys;
    ScopesNeutral(pushed, sc.body);
  }

  lemma {:induction false} ScopesNeutral(s: Snapshot, scs: seq<Scope>)
    requires Consistent(s) && forall i :: 0 <= i < |scs| ==> AllKnown(s.defs.Keys, scs[i])
    ensures RunScopes(s, scs) == Some(s)
    decreases scs
  {
    if scs != [] {
      ScopeNeutral(s, scs[0]);
      ScopesNeutral(s, scs[1..]);
    }
  }
  /**
   * Without any assumption about the defs, running a scope over recorded
   * factions always succeeds and gives back the stack and the player
   * faction, and records the same factions.
   */
  lemma {:induction false} ScopeRestoresPlayer(s: Snapshot, sc: Scope)
    requires s.ofPlayer in s.defs && AllKnown(s.defs.Keys, sc)
    ensures RunScope(s, sc).Some?
    ensures RunScope(s, sc).value.stack == s.stack
    ensures RunScope(s, sc).value.ofPlayer == s.ofPlayer
    ensures RunScope(s, sc).value.defs.Keys == s.defs.Keys
    decreases sc
  {
    var pushed := PushStep(s, sc.faction).0;
    assert pushed.defs.Keys == s.defs.Keys;
    ScopesRestorePlayer(pushed, sc.body);
    var inner := RunScopes(pushed, sc.body).value;
    assert inner.stack[..|inner.stack| - 1] == s.stack;
  }

  lemma {:induction false} ScopesRestorePlayer(s: Snapshot, scs: seq<Scope>)
    requires s.ofPlayer in s.defs && forall i :: 0 <= i < |scs| ==> AllKnown(s.defs.Keys, scs[i])
    ensures RunScopes(s, scs).Some?
    ensures RunScopes(s, scs).value.stack == s.stack
    ensures RunScopes(s, scs).value.ofPlayer == s.ofPlayer
    ensures RunScopes(s, scs).value.defs.Keys == s.defs.Keys
    decreases scs
  {
    if scs != [] {
      ScopeRestoresPlayer(s, scs[0]);
      ScopesRestorePlayer(RunScope(s, scs[0]).value, scs[1..]);
    }
  }


  // =====================================================================
  // Heap model
  // =====================================================================

  /**
   * The static FactionContext class: its stack of saved player factions
   * (top last, null for the sentinel) and the game's faction manager.
   *
   * The ghost parameter `known` of each method names the factions whose
   * defs the caller wants to track; it must contain every faction the
   * method can touch, and Abs(known) is the value-model view of them.
   */
  class FactionContext {
    var stack: seq<Faction?>
    const manager: FactionManager

    constructor (manager: FactionManager)
      ensures this.manager == manager && stack == []
    {
      this.manager := manager;
      stack := [];
    }

    /** The heap as a Snapshot, restricted to the factions in `known`. */
    ghost function Abs(known: set<Faction>): Snapshot
      reads this, manager, known
    {
      Snapshot(map g | g in known :: g.def, manager.ofPlayer, stack)
    }

    /** `known` holds the player faction and every faction saved on the stack. */
    ghost predicate Covers(known: set<Faction>)
      reads this, manager
    {
      manager.ofPlayer in known &&
      forall i :: 0 <= i < |stack| && stack[i] != null ==> stack[i] in known
    }

    /** FactionContext.Set, as SetStep says. */
    method Set(faction: Faction, ghost known: set<Faction>)
      requires manager.ofPlayer in known && faction in known
      modifies manager, manager.ofPlayer, faction
      ensures manager.ofPlayer == faction && faction.def == PlayerColony
      ensures old(manager.ofPlayer) != faction ==> old(manager.ofPlayer).def == MultiplayerColony
      ensures Abs(known) == SetStep(old(Abs(known)), faction)
    {
      manager.ofPlayer.def := MultiplayerColony;
      faction.def := PlayerColony;
      manager.ofPlayer := faction;
    }

    /**
     * FactionContext.Push. Only `faction`, the old player faction, the
     * manager and the stack can change (the modifies clause); how they
     * change is PushStep.
     */
    method Push(faction: Faction?, ghost known: set<Faction>) returns (r: Faction?)
      requires Covers(known) && (faction != null ==> faction in known)
      modifies this, manager, manager.ofPlayer, if faction == null then {} else {faction}
      ensures Covers(known)
      ensures r == (if faction == null || !Participates(old(faction.def)) then null else faction)
      ensures stack == old(stack) + [if r == null then null else old(manager.ofPlayer)]
      ensures manager.ofPlayer == (if r == null then old(manager.ofPlayer) else faction)
      ensures (Abs(known), r) == PushStep(old(Abs(known)), faction)
    {
      ghost var before := Abs(known);
      if faction == null || (faction.def != MultiplayerColony && faction.def != PlayerColony) {
        stack := stack + [null];
        assert Abs(known).defs == before.defs;
        return null;
      }

      stack := stack + [manager.ofPlayer];
      assert Abs(known).defs == before.defs;
      Set(faction, known);
      return faction;
    }

    /**
     * FactionContext.Pop. `underflow` is set, and nothing changes, where
     * `Stack.Pop` throws on an empty stack.
     */
    method Pop(ghost known: set<Faction>) returns (f: Faction?, underflow: bool)
      requires Covers(known)
      modifies this, manager, manager.ofPlayer,
        if stack != [] && stack[|stack| - 1] != null then {stack[|stack| - 1]} else {}
      ensures Covers(known)
      ensures underflow <==> old(stack) == []
      ensures !underflow ==> f == old(stack)[|old(stack)| - 1] && stack == old(stack)[..|old(stack)| - 1]
      ensures manager.ofPlayer == (if f == null then old(manager.ofPlayer) else f)
      ensures PopStep(old(Abs(known))) == (if underflow then None else Some((Abs(known), f)))
      ensures underflow ==> f == null && Abs(known) == old(Abs(known))
    {
      if stack == [] {
        return null, true;
      }

      ghost var before := Abs(known);
      f := stack[|stack| - 1];
      stack := stack[..|stack| - 1];
      assert Abs(known).defs == before.defs;
      if f != null {
        Set(f, known);
      }
      underflow := false;
    }
  }

  /**
   * A Push followed by its matching Pop: the stack and the player faction
   * are always restored; the tracked defs are restored after a sentinel
   * push, and after a participating push exactly when RestoresDefs held.
   */
  method PushThenPop(ctx: FactionContext, faction: Faction?, ghost known: set<Faction>)
    returns (pushed: Faction?, popped: Faction?)
    requires ctx.Covers(known) && (faction != null ==> faction in known)
    modifies ctx, ctx.manager, ctx.manager.ofPlayer, if faction == null then {} else {faction}
    ensures ctx.stack == old(ctx.stack) && ctx.manager.ofPlayer == old(ctx.manager.ofPlayer)
    ensures pushed == null || pushed == faction
    ensures popped == (if pushed == null then null else old(ctx.manager.ofPlayer))
    ensures pushed == null ==> ctx.Abs(known) == old(ctx.Abs(known))
    ensures pushed != null ==>
      (ctx.Abs(known) == old(ctx.Abs(known)) <==> RestoresDefs(old(ctx.Abs(known)), pushed))
  {
    ghost var before := ctx.Abs(known);
    pushed := ctx.Push(faction, known);
    var underflow;
    popped, underflow := ctx.Pop(known);
    PushPopRestoresPlayer(before, faction);
    if pushed == null {
      SentinelPushPop(before, faction);
    } else {
      PushPopNeutralIff(before, pushed);
    }
  }
}
