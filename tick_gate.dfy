/**
 * The process-wide gating predicates of the Multiplayer static class:
 * whether the simulation is ticking, whether queued commands are being
 * executed, which map is the current context, and whether a local user
 * action should be captured and sent for synchronization.
 *
 * Each predicate is a pure function of a snapshot of the flags it reads.
 */
module TickGate {
  import opened Wrappers

  /** A handle on a game map (Verse's `Map`, compared by reference). */
  datatype MapId = MapId(uniqueId: int)

  /** Verse's `ProgramState`. */
  datatype ProgramState = Entry | MapInitializing | Playing

  /** The flags and references the predicates read, at one instant. */
  datatype GateState = GateState(
    clientPresent: bool,             // Multiplayer.Client != null
    tickingWorld: bool,              // MultiplayerWorldComp.tickingWorld
    tickingMap: Option<MapId>,       // MapAsyncTimeComp.tickingMap
    constantTicking: bool,           // ConstantTicker.ticking
    executingCmdWorld: bool,         // MultiplayerWorldComp.executingCmdWorld
    executingCmdMap: Option<MapId>,  // MapAsyncTimeComp.executingCmdMap
    reloading: bool,                 // Multiplayer.reloading
    programState: ProgramState,      // Current.ProgramState
    longEventRunning: bool,          // LongEventHandler.currentEvent != null
    dontSync: bool                   // Multiplayer.dontSync
  )

  /** A command is being applied to the world or to some map. */
  predicate ExecutingCmds(g: GateState)
    ensures g.executingCmdWorld ==> ExecutingCmds(g)
    ensures g.executingCmdMap.Some? ==> ExecutingCmds(g)
    ensures ExecutingCmds(g) && !g.executingCmdWorld ==> g.executingCmdMap.Some?
  {
    g.executingCmdWorld || g.executingCmdMap.Some?
  }

  /** The world or a map is being advanced, or the constant ticker runs. */
  predicate Ticking(g: GateState)
    ensures g.tickingWorld || g.tickingMap.Some? || g.constantTicking ==> Ticking(g)
    ensures Ticking(g) ==> g.tickingWorld || g.tickingMap.Some? || g.constantTicking
  {
    g.tickingWorld || g.tickingMap.Some? || g.constantTicking
  }

  /** The map being ticked, else the map whose commands are executing. */
  function MapContext(g: GateState): (m: Option<MapId>)
    ensures m.Some? ==> Ticking(g) || ExecutingCmds(g)
    ensures m.Some? ==> m == g.tickingMap || m == g.executingCmdMap
  {
    g.tickingMap.OrElse(g.executingCmdMap)
  }

  /** A local user action may be captured and broadcast. */
  predicate ShouldSync(g: GateState)
    ensures ShouldSync(g) ==> !Ticking(g) && !ExecutingCmds(g)
    ensures ShouldSync(g) ==> MapContext(g).None?
  {
    g.clientPresent && !Ticking(g) && !ExecutingCmds(g) && !g.reloading
    && g.programState == Playing && !g.longEventRunning && !g.dontSync
  }

  /** The ticking map takes precedence over the executing map. */
  lemma MapContextPrefersTickingMap(g: GateState)
    ensures g.tickingMap.Some? ==> MapContext(g) == g.tickingMap
    ensures g.tickingMap.None? ==> MapContext(g) == g.executingCmdMap
  {
  }

  /**
   * ShouldSync in terms of the raw flags alone: it holds exactly when a
   * client exists, nothing ticks, no command executes, no reload or long
   * event is in progress, the game is playing and sync is not suppressed.
   */
  lemma ShouldSyncExactly(g: GateState)
    ensures ShouldSync(g) <==>
      && g.clientPresent
      && !g.tickingWorld && g.tickingMap.None? && !g.constantTicking
      && !g.executingCmdWorld && g.executingCmdMap.None?
      && !g.reloading
      && g.programState == Playing
      && !g.longEventRunning
      && !g.dontSync
  {
  }

  /** Whatever the other inputs, ticking or executing commands forbids sync. */
  lemma NoSyncWhileTickingOrExecuting(g: GateState)
    requires Ticking(g) || ExecutingCmds(g)
    ensures !ShouldSync(g)
  {
  }
}
