/**
 * The editor window's command history and scene registry.
 *
 * The window keeps an undo stack and a redo stack of commands, and a registry
 * list of the scene actors it shows. Every
 * successful execute, undo or redo of a command is followed by the matching
 * update of the registry, so that the registry and the renderer's actor
 * collection move in lockstep.
 */
module MainWindow {
  import opened Scene
  import opened Commands
  import opened Naming

  // ---------------------------------------------------------------------------
  // The registry update that follows a command step
  // ---------------------------------------------------------------------------

  /** Removes the first occurrence of each of `xs`, in order; each removal takes out at most one element. */
  function RemoveEach(s: seq<Actor>, xs: seq<Actor>): (r: seq<Actor>)
    ensures |s| - |xs| <= |r| <= |s|
    decreases |xs|
  {
    if xs == [] then s else RemoveEach(RemoveFirst(s, xs[0]), xs[1..])
  }

  /**
   * The registry after one step of `op`: the actors the step removes are taken
   * out of the list, then the actors it adds are appended. The step's actors are
   * those the command itself adds and removes on the renderer.
   */
  function Sync(actors: seq<Actor>, op: Op, isUndo: bool): (r: seq<Actor>)
  {
    RemoveEach(actors, Removes(op, isUndo)) + Adds(op, isUndo)
  }

  /**
   * The registry update keeps the old actors less one copy of each removed
   * actor (so it loses at most one element per removed actor), and ends with
   * the added actors in call order.
   */
  lemma SyncShape(actors: seq<Actor>, op: Op, isUndo: bool)
    ensures var r := Sync(actors, op, isUndo);
            && |actors| - |Removes(op, isUndo)| + |Adds(op, isUndo)| <= |r| <= |actors| + |Adds(op, isUndo)|
            && r[|r| - |Adds(op, isUndo)|..] == Adds(op, isUndo)
            && multiset(r[..|r| - |Adds(op, isUndo)|]) == multiset(actors) - multiset(Removes(op, isUndo))
  {
    var kept := RemoveEach(actors, Removes(op, isUndo));
    assert Sync(actors, op, isUndo)[..|kept|] == kept;
    RemoveEachMultiset(actors, Removes(op, isUndo));
  }

  /** Executing an add command appends the new actor to the registry and shows it. */
  lemma AddStep(actors: seq<Actor>, shown: set<Actor>, a: Actor)
    ensures Sync(actors, Add(a), false) == actors + [a]
    ensures Effect(shown, Add(a), false) == shown + {a}
  {
    assert Removes(Add(a), false) == [];
  }

  lemma RemoveEachSingle(s: seq<Actor>, x: Actor)
    ensures RemoveEach(s, [x]) == RemoveFirst(s, x)
  {
    assert [x][1..] == [];
    assert RemoveEach(s, [x]) == RemoveEach(RemoveFirst(s, x), []);
  }

  lemma RemoveEachPair(s: seq<Actor>, x: Actor, y: Actor)
    ensures RemoveEach(s, [x, y]) == RemoveFirst(RemoveFirst(s, x), y)
  {
    assert [x, y][1..] == [y];
    RemoveEachSingle(RemoveFirst(s, x), y);
  }

  lemma {:induction false} RemoveEachMultiset(s: seq<Actor>, xs: seq<Actor>)
    ensures multiset(RemoveEach(s, xs)) == multiset(s) - multiset(xs)
    decreases |xs|
  {
    if xs != [] {
      RemoveFirstMultiset(s, xs[0]);
      RemoveEachMultiset(RemoveFirst(s, xs[0]), xs[1..]);
      assert xs == [xs[0]] + xs[1..];
    }
  }

  lemma {:induction false} RemoveEachNoDup(s: seq<Actor>, xs: seq<Actor>)
    requires NoDup(s)
    ensures NoDup(RemoveEach(s, xs))
    ensures Elems(RemoveEach(s, xs)) == Elems(s) - Elems(xs)
    decreases |xs|
  {
    if xs != [] {
      RemoveFirstNoDup(s, xs[0]);
      RemoveEachNoDup(RemoveFirst(s, xs[0]), xs[1..]);
      assert xs == [xs[0]] + xs[1..];
      assert Elems(xs) == {xs[0]} + Elems(xs[1..]);
    }
  }

  /** The registry changes by exactly the actors the step removes and adds, counted with multiplicity. */
  lemma SyncMultiset(actors: seq<Actor>, op: Op, isUndo: bool)
    ensures multiset(Sync(actors, op, isUndo)) ==
            multiset(actors) - multiset(Removes(op, isUndo)) + multiset(Adds(op, isUndo))
  {
    RemoveEachMultiset(actors, Removes(op, isUndo));
  }

  /**
   * Undo right after execute (or redo right after undo) gives back the same
   * registry up to order, provided the actors the first step removes were listed.
   */
  lemma SyncRoundTrip(actors: seq<Actor>, op: Op, isUndo: bool)
    requires multiset(Removes(op, isUndo)) <= multiset(actors)
    ensures multiset(Sync(Sync(actors, op, isUndo), op, !isUndo)) == multiset(actors)
  {
    var once := Sync(actors, op, isUndo);
    SyncMultiset(actors, op, isUndo);
    SyncMultiset(once, op, !isUndo);
    UndoMirrorsExecute(op);
  }

  /** A step of a command with distinct references whose removals are all listed removes one copy of each. */
  lemma RemovesListed(actors: seq<Actor>, op: Op, isUndo: bool)
    requires Distinct(op) && Elems(Removes(op, isUndo)) <= Elems(actors)
    ensures multiset(Removes(op, isUndo)) <= multiset(actors)
  {
    var r := Removes(op, isUndo);
    assert NoDup(r) by {
      if op.Boolean? && !isUndo {
        assert r == [op.oldActor1, op.oldActor2];
      }
    }
    forall x
      ensures multiset(r)[x] <= multiset(actors)[x]
    {
      NoDupCount(r, x);
      if x in r {
        assert x in Elems(r);
        assert x in actors;
      }
    }
  }

  /**
   * Undoing a step on a registry that equals, up to order, the registry the
   * step produced gives back the registry the step started from, up to order.
   */
  lemma UndoStepMultiset(current: seq<Actor>, before: seq<Actor>, op: Op)
    requires multiset(current) == multiset(Sync(before, op, false))
    requires multiset(Removes(op, false)) <= multiset(before)
    ensures multiset(Sync(current, op, true)) == multiset(before)
  {
    SyncMultiset(before, op, false);
    SyncMultiset(current, op, true);
    UndoMirrorsExecute(op);
  }

  /**
   * A registry that lists the renderer's actors once each still does so after
   * the same step is applied to both, when the step is applied where it belongs.
   */
  lemma SyncLockstep(actors: seq<Actor>, op: Op, isUndo: bool)
    requires NoDup(actors) && Distinct(op) && Exact(op, Elems(actors), isUndo)
    ensures NoDup(Sync(actors, op, isUndo))
    ensures Elems(Sync(actors, op, isUndo)) == Effect(Elems(actors), op, isUndo)
  {
    var kept := RemoveEach(actors, Removes(op, isUndo));
    var added := Adds(op, isUndo);
    RemoveEachNoDup(actors, Removes(op, isUndo));
    assert NoDup(added);
    assert forall i, j :: 0 <= i < |kept| && 0 <= j < |added| ==> kept[i] != added[j] by {
      forall i, j | 0 <= i < |kept| && 0 <= j < |added| ensures kept[i] != added[j] {
        assert kept[i] in Elems(kept);
      }
    }
    assert Elems(kept + added) == Elems(kept) + Elems(added);
  }

  // ---------------------------------------------------------------------------
  // Invariants of the history
  // ---------------------------------------------------------------------------

  /**
   * Unwinding `cmds` from the top, each command's step in direction `isUndo`
   * is applied where it belongs, starting from the actor collection `s`.
   */
  ghost predicate Replayable(cmds: seq<Command>, s: set<Actor>, isUndo: bool)
    decreases |cmds|
  {
    cmds == [] ||
    var c := cmds[|cmds| - 1];
    Distinct(c.op) && Exact(c.op, s, isUndo) &&
    Replayable(cmds[..|cmds| - 1], Effect(s, c.op, isUndo), isUndo)
  }

  /** The top command of a replayable stack can take its step on the current actors. */
  lemma ReplayableTop(cmds: seq<Command>, s: set<Actor>, isUndo: bool)
    requires cmds != [] && Replayable(cmds, s, isUndo)
    ensures Distinct(cmds[|cmds| - 1].op) && Exact(cmds[|cmds| - 1].op, s, isUndo)
  {
  }

  /**
   * The history is consistent with the scene: the registry lists the shown
   * actors once each, no command sits twice on the stacks or on both of them,
   * and undoing the undo stack (redoing the redo stack) top-down applies every
   * step where it belongs.
   */
  ghost predicate CoherentState(actors: seq<Actor>, shown: set<Actor>, undo: seq<Command>, redo: seq<Command>)
  {
    && Elems(actors) == shown
    && NoDup(actors)
    && NoDup(undo) && NoDup(redo) && Elems(undo) !! Elems(redo)
    && Replayable(undo, shown, true)
    && Replayable(redo, shown, false)
  }

  /**
   * Executing a new command that applies where it belongs, pushing it, clearing
   * the redo history and updating the registry keeps the history consistent.
   */
  lemma ExecuteKeepsCoherent(actors: seq<Actor>, shown: set<Actor>, undo: seq<Command>, redo: seq<Command>, c: Command)
    ensures CoherentState(actors, shown, undo, redo) && Distinct(c.op) && Exact(c.op, shown, false) && c !in undo ==>
              CoherentState(Sync(actors, c.op, false), Effect(shown, c.op, false), undo + [c], [])
  {
    if CoherentState(actors, shown, undo, redo) && Distinct(c.op) && Exact(c.op, shown, false) && c !in undo {
      SyncLockstep(actors, c.op, false);
      EffectRoundTrip(c.op, shown, false);
      NoDupAppend(undo, c);
      assert (undo + [c])[..|undo|] == undo;
    }
  }

  /**
   * Popping the top of the undo stack keeps the history consistent: when the
   * command reverts, it moves to the redo stack and the registry follows; when
   * it fails (only the base command does, and it has no effect), it is dropped.
   */
  lemma UndoKeepsCoherent(actors: seq<Actor>, shown: set<Actor>, undo: seq<Command>, redo: seq<Command>)
    requires undo != []
    ensures var c := undo[|undo| - 1];
            CoherentState(actors, shown, undo, redo) && c.op.Unimplemented? ==> CoherentState(actors, shown, undo[..|undo| - 1], redo)
    ensures var c := undo[|undo| - 1];
            CoherentState(actors, shown, undo, redo) && !c.op.Unimplemented? ==>
              CoherentState(Sync(actors, c.op, true), Effect(shown, c.op, true), undo[..|undo| - 1], redo + [c])
  {
    if CoherentState(actors, shown, undo, redo) {
      var c := undo[|undo| - 1];
      MoveLast(undo, redo);
      ReplayableTop(undo, shown, true);
      if c.op.Unimplemented? {
        assert Effect(shown, c.op, true) == shown;
      } else {
        SyncLockstep(actors, c.op, true);
        EffectRoundTrip(c.op, shown, true);
        assert (redo + [c])[..|redo|] == redo;
      }
    }
  }

  /** The mirror image of `UndoKeepsCoherent` for popping the top of the redo stack. */
  lemma RedoKeepsCoherent(actors: seq<Actor>, shown: set<Actor>, undo: seq<Command>, redo: seq<Command>)
    requires redo != []
    ensures var c := redo[|redo| - 1];
            CoherentState(actors, shown, undo, redo) && c.op.Unimplemented? ==> CoherentState(actors, shown, undo, redo[..|redo| - 1])
    ensures var c := redo[|redo| - 1];
            CoherentState(actors, shown, undo, redo) && !c.op.Unimplemented? ==>
              CoherentState(Sync(actors, c.op, false), Effect(shown, c.op, false), undo + [c], redo[..|redo| - 1])
  {
    if CoherentState(actors, shown, undo, redo) {
      var c := redo[|redo| - 1];
      MoveLast(redo, undo);
      ReplayableTop(redo, shown, false);
      if c.op.Unimplemented? {
        assert Effect(shown, c.op, false) == shown;
      } else {
        SyncLockstep(actors, c.op, false);
        EffectRoundTrip(c.op, shown, false);
        assert (undo + [c])[..|undo|] == undo;
      }
    }
  }

  /** No two actors in the list carry the same name. */
  ghost predicate DistinctNames(s: seq<Actor>)
    reads s
  {
    forall i, j :: 0 <= i < j < |s| ==> s[i].name != s[j].name
  }

  function Names(s: seq<Actor>): set<string>
    reads s
  {
    set a | a in s :: a.name
  }

  lemma NamesOfSingle(a: Actor)
    ensures Names([a]) == {a.name}
  {
    assert forall b :: b in [a] <==> b == a;
  }

  /** Position of the first actor named `n`, or the length of the list when there is none. */
  function IndexOfName(s: seq<Actor>, n: string): (k: nat)
    reads s
    ensures k <= |s|
    ensures k < |s| ==> s[k].name == n
    ensures forall j :: 0 <= j < k ==> s[j].name != n
  {
    if s == [] then 0
    else if s[0].name == n then 0
    else 1 + IndexOfName(s[1..], n)
  }

  lemma DistinctNamesRemoveFirst(s: seq<Actor>, x: Actor)
    requires DistinctNames(s)
    ensures DistinctNames(RemoveFirst(s, x))
  {
    if x in s {
      var k := RemoveFirstSplits(s, x);
      var r := RemoveFirst(s, x);
      assert forall i :: 0 <= i < |r| ==> r[i] == s[if i < k then i else i + 1];
    }
  }

  lemma DistinctNamesAppend(s: seq<Actor>, a: Actor)
    requires DistinctNames(s) && a.name !in Names(s)
    ensures DistinctNames(s + [a])
  {
    forall i | 0 <= i < |s| ensures s[i].name != a.name {
      assert s[i].name in Names(s);
    }
  }

  /** The name asked for at creation: the given one, or `Mesh_<n+1>` when none (or an empty one) is given. */
  function RequestedName(name: Option<string>, actorCount: nat): (r: string)
    ensures r != ""
    ensures name.Some? && name.value != "" ==> r == name.value
  {
    if name.Some? && name.value != "" then name.value else Suffixed("Mesh", actorCount + 1)
  }

  // ---------------------------------------------------------------------------
  // The window
  // ---------------------------------------------------------------------------

  class MeshCreatorApp {
    const renderer: Renderer
    var actors: seq<Actor>
    var actorCount: nat
    var undoStack: seq<Command>
    var redoStack: seq<Command>

    /** Every command on either stack acts on this window's renderer. */
    ghost predicate Valid()
      reads this
    {
      && (forall i :: 0 <= i < |undoStack| ==> undoStack[i].renderer == renderer)
      && (forall i :: 0 <= i < |redoStack| ==> redoStack[i].renderer == renderer)
    }

    /** The history is consistent with the scene; see `CoherentState`. */
    ghost predicate Coherent()
      reads this, renderer
    {
      Valid() && CoherentState(actors, renderer.actors, undoStack, redoStack)
    }

    /** `c` can be executed without breaking coherence: it is applied where it belongs and is new to the history. */
    ghost predicate CanExecute(c: Command)
      reads this, renderer
    {
      Distinct(c.op) && Exact(c.op, renderer.actors, false) && c !in undoStack
    }

    /** Names are unique among the registered actors. */
    ghost predicate UniqueNames()
      reads this, actors
    {
      DistinctNames(actors)
    }

    constructor ()
      ensures fresh(renderer) && renderer.actors == {}
      ensures actors == [] && actorCount == 0 && undoStack == [] && redoStack == []
      ensures Coherent() && UniqueNames()
    {
      renderer := new Renderer();
      actors := [];
      actorCount := 0;
      undoStack := [];
      redoStack := [];
    }

    method AddActorToScene(a: Actor)
      modifies this`actors
      ensures actors == old(actors) + [a]
    {
      actors := actors + [a];
    }

    method RemoveActorFromScene(a: Actor)
      modifies this`actors
      ensures actors == RemoveFirst(old(actors), a)
    {
      if a in actors {
        actors := RemoveFirst(actors, a);
      }
    }

    /** The dispatch table: the registry update that mirrors one step of `c`. */
    method SyncActorsFromCommand(c: Command, isUndo: bool)
      requires !c.op.Unimplemented?
      modifies this`actors
      ensures actors == Sync(old(actors), c.op, isUndo)
    {
      match c.op
      case Add(a) =>
        if isUndo {
          RemoveActorFromScene(a);
          RemoveEachSingle(old(actors), a);
        } else {
          AddActorToScene(a);
        }
      case Delete(a) =>
        if isUndo {
          AddActorToScene(a);
        } else {
          RemoveActorFromScene(a);
          RemoveEachSingle(old(actors), a);
        }
      case Replace(n, o) =>
        if isUndo {
          RemoveActorFromScene(n);
          AddActorToScene(o);
          RemoveEachSingle(old(actors), n);
        } else {
          RemoveActorFromScene(o);
          AddActorToScene(n);
          RemoveEachSingle(old(actors), o);
        }
      case Boolean(n, o1, o2) =>
        if isUndo {
          RemoveActorFromScene(n);
          AddActorToScene(o1);
          AddActorToScene(o2);
          RemoveEachSingle(old(actors), n);
        } else {
          RemoveActorFromScene(o1);
          RemoveActorFromScene(o2);
          AddActorToScene(n);
          RemoveEachPair(old(actors), o1, o2);
        }
    }

    /**
     * Runs `c`; on success pushes it, drops the redo history and updates the
     * registry. A command that raises leaves everything as it was.
     */
    method ExecuteCommand(c: Command)
      requires Valid() && c.renderer == renderer
      modifies this, renderer
      ensures Valid() && actorCount == old(actorCount)
      ensures c.op.Unimplemented? ==>
                && actors == old(actors) && undoStack == old(undoStack) && redoStack == old(redoStack)
                && renderer.actors == old(renderer.actors)
      ensures !c.op.Unimplemented? ==>
                && undoStack == old(undoStack) + [c] && redoStack == []
                && actors == Sync(old(actors), c.op, false)
                && renderer.actors == Effect(old(renderer.actors), c.op, false)
      ensures old(Coherent()) && old(CanExecute(c)) ==> Coherent()
    {
      ExecuteKeepsCoherent(actors, renderer.actors, undoStack, redoStack, c);
      var ok := c.Execute();
      if ok {
        undoStack := undoStack + [c];
        redoStack := [];
        SyncActorsFromCommand(c, false);
      }
    }

    /**
     * Pops the top of the undo stack and reverts it; on success pushes it onto
     * the redo stack and updates the registry. A command whose undo raises is
     * on neither stack afterwards. An empty undo stack changes nothing.
     */
    method Undo()
      requires Valid()
      modifies this, renderer
      ensures Valid() && actorCount == old(actorCount)
      ensures old(undoStack) == [] ==>
                && actors == old(actors) && undoStack == old(undoStack) && redoStack == old(redoStack)
                && renderer.actors == old(renderer.actors)
      ensures old(undoStack) != [] ==>
                var c := old(undoStack)[|old(undoStack)| - 1];
                && undoStack == old(undoStack)[..|old(undoStack)| - 1]
                && (c.op.Unimplemented? ==>
                      && redoStack == old(redoStack) && actors == old(actors)
                      && renderer.actors == old(renderer.actors))
                && (!c.op.Unimplemented? ==>
                      && redoStack == old(redoStack) + [c]
                      && actors == Sync(old(actors), c.op, true)
                      && renderer.actors == Effect(old(renderer.actors), c.op, true)
                      && |undoStack| + |redoStack| == old(|undoStack| + |redoStack|))
      ensures old(Coherent()) ==> Coherent()
    {
      if undoStack == [] {
        return;
      }
      UndoKeepsCoherent(actors, renderer.actors, undoStack, redoStack);
      var command := undoStack[|undoStack| - 1];
      assert command.renderer == renderer;
      undoStack := undoStack[..|undoStack| - 1];
      var ok := command.Undo();
      if ok {
        redoStack := redoStack + [command];
        SyncActorsFromCommand(command, true);
      }
    }

    /**
     * Pops the top of the redo stack and re-executes it; on success pushes it
     * onto the undo stack and updates the registry. A command whose execute
     * raises is on neither stack afterwards. An empty redo stack changes nothing.
     */
    method Redo()
      requires Valid()
      modifies this, renderer
      ensures Valid() && actorCount == old(actorCount)
      ensures old(redoStack) == [] ==>
                && actors == old(actors) && undoStack == old(undoStack) && redoStack == old(redoStack)
                && renderer.actors == old(renderer.actors)
      ensures old(redoStack) != [] ==>
                var c := old(redoStack)[|old(redoStack)| - 1];
                && redoStack == old(redoStack)[..|old(redoStack)| - 1]
                && (c.op.Unimplemented? ==>
                      && undoStack == old(undoStack) && actors == old(actors)
                      && renderer.actors == old(renderer.actors))
                && (!c.op.Unimplemented? ==>
                      && undoStack == old(undoStack) + [c]
                      && actors == Sync(old(actors), c.op, false)
                      && renderer.actors == Effect(old(renderer.actors), c.op, false)
                      && |undoStack| + |redoStack| == old(|undoStack| + |redoStack|))
      ensures old(Coherent()) ==> Coherent()
    {
      if redoStack == [] {
        return;
      }
      RedoKeepsCoherent(actors, renderer.actors, undoStack, redoStack);
      var command := redoStack[|redoStack| - 1];
      assert command.renderer == renderer;
      redoStack := redoStack[..|redoStack| - 1];
      var ok := command.Execute();
      if ok {
        undoStack := undoStack + [command];
        SyncActorsFromCommand(command, false);
      }
    }

    /** Clears the scene, the registry and both stacks without reverting any command. */
    method NewProject()
      modifies this, renderer
      ensures actors == [] && undoStack == [] && redoStack == [] && actorCount == 0
      ensures renderer.actors == {}
      ensures Coherent() && UniqueNames()
    {
      renderer.RemoveAllViewProps();
      actors := [];
      undoStack := [];
      redoStack := [];
      actorCount := 0;
    }

    /** Position of the first registered actor named `name`, or the registry's length when there is none. */
    method FindActorNamed(name: string) returns (k: nat)
      ensures k == IndexOfName(actors, name)
    {
      k := 0;
      while k < |actors| && actors[k].name != name
        invariant k <= |actors|
        invariant forall j :: 0 <= j < k ==> actors[j].name != name
      {
        k := k + 1;
      }
      IndexOfNameIsFirst(actors, name, k);
    }

    /**
     * Creates an actor over `polydata` under a unique name and, when `execute`
     * holds, adds it to the scene through an add command. Geometry that is
     * missing or has no points creates nothing.
     */
    method CreateActorFromPolydata(polydata: Option<Geometry>, name: Option<string>, execute: bool)
      returns (actor: Actor?)
      requires Valid()
      modifies this, renderer
      ensures Valid()
      ensures polydata.None? || polydata.value.pointCount == 0 ==>
                && actor == null
                && actors == old(actors) && actorCount == old(actorCount)
                && undoStack == old(undoStack) && redoStack == old(redoStack)
                && renderer.actors == old(renderer.actors)
      ensures polydata.Some? && polydata.value.pointCount > 0 ==>
                && actor != null && fresh(actor) && actor.geometry == polydata.value
                && IsResolution(actor.name, RequestedName(name, old(actorCount)), old(Names(actors)))
                && actorCount == (if name.None? then old(actorCount) + 1 else old(actorCount))
      ensures actor != null && !execute ==>
                && actors == old(actors) && undoStack == old(undoStack) && redoStack == old(redoStack)
                && renderer.actors == old(renderer.actors)
      ensures actor != null && execute ==>
                && |undoStack| == |old(undoStack)| + 1
                && undoStack[..|old(undoStack)|] == old(undoStack)
                && fresh(undoStack[|old(undoStack)|]) && undoStack[|old(undoStack)|].op == Add(actor)
                && redoStack == []
                && actors == old(actors) + [actor]
                && renderer.actors == old(renderer.actors) + {actor}
      ensures old(Coherent()) ==> Coherent()
      ensures old(UniqueNames()) ==> UniqueNames()
    {
      if polydata.None? || polydata.value.pointCount == 0 {
        return null;
      }
      var finalName := ResolveName(RequestedName(name, actorCount), Names(actors));
      if name.None? {
        actorCount := actorCount + 1;
      }
      actor := new Actor(finalName, polydata.value);
      if execute {
        var c := new Command(renderer, Add(actor));
        AddStep(actors, renderer.actors, actor);
        assert CanExecute(c);
        ExecuteCommand(c);
        if old(UniqueNames()) {
          DistinctNamesAppend(old(actors), actor);
        }
      }
    }

    /**
     * Renames the first actor named `oldName` to `newName`, suffixed until it
     * differs from every other actor's name; `itemText` is the text the browser
     * entry shows afterwards. Nothing changes when the dialog was cancelled, the
     * new name is empty or it equals the old one.
     */
    method RenameItem(oldName: string, newName: string, ok: bool) returns (itemText: string)
      modifies Elems(actors)
      ensures !(ok && newName != "" && newName != oldName) ==>
                itemText == oldName && forall a :: a in actors ==> a.name == old(a.name)
      ensures ok && newName != "" && newName != oldName ==>
                && IsResolution(itemText, newName, old(Names(actors)) - {oldName})
                && var k := old(IndexOfName(actors, oldName));
                   forall a :: a in actors ==>
                     a.name == (if k < |actors| && a == actors[k] then itemText else old(a.name))
      ensures old(UniqueNames()) ==> UniqueNames()
    {
      itemText := oldName;
      if !(ok && newName != "" && newName != oldName) {
        return;
      }
      ghost var taken := Names(actors) - {oldName};
      itemText := ResolveName(newName, Names(actors) - {oldName});
      var k := FindActorNamed(oldName);
      if k < |actors| {
        ghost var target := actors[k];
        actors[k].name := itemText;
        if old(UniqueNames()) {
          forall i | 0 <= i < |actors| && i != k
            ensures actors[i].name == old(actors[i].name) && actors[i].name in taken
          {
            assert old(actors[i].name) != old(target.name) && old(actors[i].name) in old(Names(actors));
          }
        }
      }
    }

    /** Deletes the first actor named `name` through a delete command; no such actor, no change. */
    method DeleteActorByName(name: string)
      requires Valid()
      modifies this, renderer
      ensures Valid() && actorCount == old(actorCount)
      ensures old(IndexOfName(actors, name)) == |old(actors)| ==>
                && actors == old(actors) && undoStack == old(undoStack) && redoStack == old(redoStack)
                && renderer.actors == old(renderer.actors)
      ensures old(IndexOfName(actors, name)) < |old(actors)| ==>
                var victim := old(actors)[old(IndexOfName(actors, name))];
                && |undoStack| == |old(undoStack)| + 1
                && undoStack[..|old(undoStack)|] == old(undoStack)
                && fresh(undoStack[|old(undoStack)|]) && undoStack[|old(undoStack)|].op == Delete(victim)
                && redoStack == []
                && actors == RemoveFirst(old(actors), victim)
                && renderer.actors == old(renderer.actors) - {victim}
      ensures old(Coherent()) ==> Coherent()
      ensures old(UniqueNames()) ==> UniqueNames()
    {
      var k := FindActorNamed(name);
      if k < |actors| {
        var victim := actors[k];
        var c := new Command(renderer, Delete(victim));
        assert Coherent() ==> CanExecute(c) by {
          assert victim in Elems(actors);
          assert Elems(Removes(c.op, false)) == {victim} && Adds(c.op, false) == [];
        }
        ExecuteCommand(c);
        RemoveEachSingle(old(actors), victim);
        if old(UniqueNames()) {
          DistinctNamesRemoveFirst(old(actors), victim);
        }
      }
    }
  }

  /** A position before which no actor is named `n` and at which one is (or the end) is `IndexOfName`. */
  lemma {:induction false} IndexOfNameIsFirst(s: seq<Actor>, n: string, k: nat)
    requires k <= |s| && (k < |s| ==> s[k].name == n)
    requires forall j :: 0 <= j < k ==> s[j].name != n
    ensures IndexOfName(s, n) == k
  {
    if s != [] && s[0].name != n {
      IndexOfNameIsFirst(s[1..], n, k - 1);
    }
  }
}
