# Mesh editor: command history and scene registry

This project models the part of the mesh editor that records and reverts
changes to the 3D scene. It covers three pieces:

- **Commands** (`core/commands.py`). A command adds an actor, deletes one,
  replaces one actor with another, or replaces two operands with the result
  of a boolean operation. Each command holds the actor references it needs
  to undo itself. The plain base command raises on both `execute` and
  `undo`.
- **History** (`main_window.py`). The main window keeps an undo stack and a
  redo stack. Executing a command pushes it and clears the redo history.
  Undo and redo move the top command between the stacks. After every
  successful step, the window updates its registry: the list of shown
  actors.
- **Naming** (`main_window.py`). New and renamed actors get unique display
  names. A name that is taken becomes `name_1`, `name_2`, ..., whichever
  comes first that is free. An actor created without a name is called
  `Mesh_<n>`, where `n` comes from a creation counter.

## Modules

- `Scene`: actors, the renderer's set of shown actors, and list helpers.
  `RemoveFirst` is the registry's guarded removal. A list's `remove` takes
  out the first occurrence and raises when there is none; the registry tests
  membership first, so an absent actor leaves the list unchanged.
- `Commands`: the command variants as the datatype `Op`, plus the `Command`
  class. A command's renderer and variant are fixed at construction.
  `Effect` is the change one step makes to the renderer's actors.
- `Naming`: decimal suffixes and the probing loop `ResolveName`.
  `IsResolution` states its result as "the first free candidate".
- `MainWindow`: the window class `MeshCreatorApp`. It holds the registry
  (`actors`), the creation counter, the two stacks and the registry update
  `Sync` that follows each step. It also holds the ghost invariant
  `Coherent`, which says:
  - the registry lists each shown scene actor exactly once (helper actors such as the working-plane outline are outside the model);
  - no command appears twice on the stacks;
  - unwinding either stack from the top applies every step where it
    belongs: each actor a step removes is shown, and each actor it adds is
    not.
- `Scenarios`: short sessions with a window, written as client code.

### What the code does, where a description of it might suggest otherwise

- **Failed undo or redo.** `undo` and `redo` pop the command before they
  call it. A command whose `undo` or `execute` raises is therefore on
  neither stack afterwards. It is not moved to the other stack, and it is
  not put back. A failed `execute_command` only logs the error. The model
  follows the code: see `MeshCreatorApp.Undo` and `MeshCreatorApp.Redo`.
- **Empty name.** Creation uses `name or "Mesh_<n+1>"`. An empty name
  therefore also falls back to the default name, but the counter is
  incremented only when no name is given at all. `RequestedName` and the
  `actorCount` clause of `CreateActorFromPolydata` state exactly this.
- **Name checks.** Rename checks the new name only against the actors shown
  at that moment. After a deletion is undone, two shown actors can
  therefore carry the same name. `Scenarios.RenameThenUndoDelete` builds
  such a session, and `MeshCreatorApp.UniqueNames` is false at its end.
  Creation, rename and delete each preserve unique names; undo and redo do
  not.

## Model

| member | source | states |
|---|---|---|
| `Scene.Actor.constructor` | mesh_editor_pro_core/core/managed_actor.py:14-16 | a new actor carries the given name and geometry |
| `Scene.Renderer.constructor` | mesh_editor_pro_core/main_window.py:89 | a new renderer shows no actor |
| `Scene.Renderer.AddActor` | mesh_editor_pro_core/core/commands.py:16 | after the call the actor is shown; whether any other actor is shown is unchanged (adding a shown actor is harmless) |
| `Scene.Renderer.RemoveActor` | mesh_editor_pro_core/core/commands.py:17 | after the call the actor is not shown; every other actor keeps its status (removing an absent actor is harmless) |
| `Scene.Renderer.RemoveAllViewProps` | mesh_editor_pro_core/main_window.py:135 | no actor is shown afterwards |
| `Scene.RemoveFirst` | mesh_editor_pro_core/main_window.py:297 | a list without `x` is returned unchanged; a list with `x` gets exactly one element shorter |
| `Scene.RemoveFirstMultiset` | mesh_editor_pro_core/main_window.py:297 | list removal takes exactly one copy of `x` out of the list, if there is one, and keeps all other elements |
| `Scene.RemoveFirstSplits` | mesh_editor_pro_core/main_window.py:297 | the removed element is the first occurrence of `x`; the result is the list with that position cut out, order kept |
| `Scene.NoDupRemoveAt` | mesh_editor_pro_core/main_window.py:297 | cutting one position out of a list without repetitions leaves a list without repetitions holding every other element |
| `Scene.RemoveFirstNoDup` | mesh_editor_pro_core/main_window.py:296-297 | on a registry without repetitions, removal drops the actor altogether and keeps the rest without repetitions |
| `Scene.NoDupMultiset` | mesh_editor_pro_core/main_window.py:292-298 | two registries without repetitions that list the same actors are the same up to order |
| `Scene.NoDupAppend` | mesh_editor_pro_core/main_window.py:292-293 | appending an actor that is not listed keeps the registry without repetitions |
| `Scene.MoveLast` | mesh_editor_pro_core/main_window.py:112-114 | popping a stack and pushing the popped command onto the other stack keeps both stacks free of repetitions and disjoint |
| `Commands.Removes` | mesh_editor_pro_core/core/commands.py:16-35 | a step hides at most two actors, all among the command's references; with distinct references, none of them is one the step shows |
| `Commands.Adds` | mesh_editor_pro_core/core/commands.py:16-35 | a step shows at most two actors, all among the command's references |
| `Commands.Effect` | mesh_editor_pro_core/core/commands.py:16-35 | after a step the renderer shows every actor the step adds and every old actor the step does not remove, hides every removed actor it does not add back, and shows nothing beyond the old actors and the added ones |
| `Commands.UndoMirrorsExecute` | mesh_editor_pro_core/core/commands.py:13-35 | for every variant, undo removes exactly what execute adds and adds back exactly what execute removes |
| `Commands.EffectRoundTrip` | mesh_editor_pro_core/core/commands.py:13-35 | execute then undo, or undo then redo, restores the renderer's actors exactly when the first step was applied where it belongs; the second step then also applies where it belongs |
| `Commands.EffectPlacement` | mesh_editor_pro_core/core/commands.py:25-35 | for commands with distinct references, a step shows every actor it adds, hides every actor it removes and leaves every other actor as it was (the add after a remove wins) |
| `Commands.Command.constructor` | mesh_editor_pro_core/core/commands.py:15-33 | a command keeps the renderer and the actor references it was built with |
| `Commands.Command.Execute` | mesh_editor_pro_core/core/commands.py:10-34 | the base command fails; every other variant succeeds and changes the renderer's actors by exactly its forward effect |
| `Commands.Command.Undo` | mesh_editor_pro_core/core/commands.py:11-35 | the base command fails; every other variant succeeds and changes the renderer's actors by exactly its backward effect |
| `MainWindow.RemoveEach` | mesh_editor_pro_core/main_window.py:330-338 | removing a list of actors one after another takes out at most one element per actor and never adds one |
| `MainWindow.SyncShape` | mesh_editor_pro_core/main_window.py:331-335 | the registry update ends with the added actors in call order; before them stand the old actors less exactly one copy of each removed actor (counted with multiplicity, order not stated), so at most one element is lost per removed actor |
| `MainWindow.AddStep` | mesh_editor_pro_core/main_window.py:290 | executing an add command appends its actor to the registry and shows it |
| `MainWindow.RemoveEachSingle` | mesh_editor_pro_core/main_window.py:331-334 | the registry update that removes a single actor is one list removal |
| `MainWindow.RemoveEachPair` | mesh_editor_pro_core/main_window.py:335 | the registry update that removes both boolean operands is two list removals, in order |
| `MainWindow.RemoveEachMultiset` | mesh_editor_pro_core/main_window.py:330-338 | removing a list of actors one by one takes out exactly one copy of each |
| `MainWindow.RemoveEachNoDup` | mesh_editor_pro_core/main_window.py:330-338 | on a registry without repetitions, removing several actors leaves exactly the other actors, still without repetitions |
| `MainWindow.SyncMultiset` | mesh_editor_pro_core/main_window.py:330-338 | the registry update changes the registry by exactly the actors the step removes and adds, counted with multiplicity |
| `MainWindow.SyncRoundTrip` | mesh_editor_pro_core/main_window.py:330-338 | updating the registry for a step and then for the opposite step gives back the same registry up to order, when the removed actors were listed |
| `MainWindow.UndoStepMultiset` | mesh_editor_pro_core/main_window.py:330-338 | a registry that matches, up to order, the update for a step whose removed actors were listed goes back to the registry before the step, up to order, under the update for the opposite step |
| `MainWindow.RemovesListed` | mesh_editor_pro_core/main_window.py:330-338 | when a command's references are distinct and everything a step removes is listed, one copy of each removed actor is listed |
| `MainWindow.SyncLockstep` | mesh_editor_pro_core/main_window.py:330-338 | a registry that lists the renderer's actors once each still does so after both take the same step |
| `MainWindow.ReplayableTop` | mesh_editor_pro_core/main_window.py:108-132 | on a coherent history, the top command of either stack can take its step on the shown actors |
| `MainWindow.ExecuteKeepsCoherent` | mesh_editor_pro_core/main_window.py:96-106 | pushing a new command that applies where it belongs, clearing redo and stepping registry and renderer forward keeps the history coherent |
| `MainWindow.UndoKeepsCoherent` | mesh_editor_pro_core/main_window.py:108-119 | on a coherent history, popping the top of the undo stack keeps coherence: the base command is dropped, any other goes onto redo while registry and renderer step backward |
| `MainWindow.RedoKeepsCoherent` | mesh_editor_pro_core/main_window.py:121-132 | on a coherent history, popping the top of the redo stack keeps coherence: the base command is dropped, any other goes onto undo while registry and renderer step forward |
| `MainWindow.IndexOfName` | mesh_editor_pro_core/main_window.py:365 | the position is that of the first actor with the name, or the list's length when no actor has it |
| `MainWindow.RequestedName` | mesh_editor_pro_core/main_window.py:282 | the name asked for is never empty, and a given non-empty name is asked for as it is |
| `MainWindow.IndexOfNameIsFirst` | mesh_editor_pro_core/main_window.py:365 | a position before which no actor has the name, and at which the list ends or the name matches, is the index the search defines |
| `MainWindow.NamesOfSingle` | mesh_editor_pro_core/main_window.py:284 | a single actor's registry takes exactly its name |
| `MainWindow.DistinctNamesRemoveFirst` | mesh_editor_pro_core/main_window.py:296-297 | removing an actor keeps the registry's names unique |
| `MainWindow.DistinctNamesAppend` | mesh_editor_pro_core/main_window.py:292-293 | appending an actor whose name is not taken keeps the names unique |
| `MainWindow.MeshCreatorApp.constructor` | mesh_editor_pro_core/main_window.py:38-39 | a new window shows nothing, its stacks and registry are empty, its counter is zero, and it is coherent with unique names |
| `MainWindow.MeshCreatorApp.AddActorToScene` | mesh_editor_pro_core/main_window.py:292-294 | the registry gets the actor appended |
| `MainWindow.MeshCreatorApp.RemoveActorFromScene` | mesh_editor_pro_core/main_window.py:296-298 | the registry loses the first occurrence of the actor, if it lists it |
| `MainWindow.MeshCreatorApp.SyncActorsFromCommand` | mesh_editor_pro_core/main_window.py:330-338 | for each variant and direction, the registry becomes the old one minus the step's removed actors, with its added actors appended, in the dispatch table's order |
| `MainWindow.MeshCreatorApp.ExecuteCommand` | mesh_editor_pro_core/main_window.py:96-106 | a failing command changes nothing; a successful one is pushed, clears redo, and moves registry and renderer by its forward step; coherence is kept for an admissible new command |
| `MainWindow.MeshCreatorApp.Undo` | mesh_editor_pro_core/main_window.py:108-119 | an empty undo stack changes nothing; otherwise the top is popped; on success it goes onto redo and registry and renderer move by its backward step; on failure it is on neither stack; coherence is always kept |
| `MainWindow.MeshCreatorApp.Redo` | mesh_editor_pro_core/main_window.py:121-132 | an empty redo stack changes nothing; otherwise the top is popped; on success it goes onto undo and registry and renderer move by its forward step; on failure it is on neither stack; coherence is always kept |
| `MainWindow.MeshCreatorApp.NewProject` | mesh_editor_pro_core/main_window.py:134-137 | the scene, registry, both stacks and the counter are cleared, without reverting any command; the window is coherent with unique names |
| `MainWindow.MeshCreatorApp.FindActorNamed` | mesh_editor_pro_core/main_window.py:365 | the scan stops at the first actor with the name, or at the end of the registry |
| `MainWindow.MeshCreatorApp.CreateActorFromPolydata` | mesh_editor_pro_core/main_window.py:279-290 | missing or pointless geometry creates nothing and changes nothing. Otherwise a fresh actor gets the first free candidate for the requested name, and the counter grows only when no name was given. With `execute`, exactly that actor is added through a new add command; without it, nothing else changes. Coherence and unique names are kept |
| `MainWindow.MeshCreatorApp.RenameItem` | mesh_editor_pro_core/main_window.py:353-362 | a cancelled, empty or unchanged name changes nothing. Otherwise the shown text is the first free candidate against the other actors' names, only the first actor with the old name takes it, and unique names are kept |
| `MainWindow.MeshCreatorApp.DeleteActorByName` | mesh_editor_pro_core/main_window.py:364-366 | an unknown name changes nothing; otherwise the first actor with that name is removed through a new delete command; coherence and unique names are kept |
| `Naming.NatToString` | mesh_editor_pro_core/main_window.py:284 | the decimal text is non-empty, has at least two digits from ten on, and ends in the last digit |
| `Naming.NatToStringInjective` | mesh_editor_pro_core/main_window.py:284 | different counters give different suffixes |
| `Naming.CandidateInjective` | mesh_editor_pro_core/main_window.py:283-284 | no candidate name is tried twice |
| `Naming.ResolutionIsUnique` | mesh_editor_pro_core/main_window.py:283-284 | the chosen name is determined by the base and the taken names |
| `Naming.ResolutionOfFreeBase` | mesh_editor_pro_core/main_window.py:284 | a base that is free is kept as it is |
| `Naming.ResolutionOfFirstSuffix` | mesh_editor_pro_core/main_window.py:284 | with the base taken and `base_1` free, `base_1` is chosen |
| `Naming.ResolveName` | mesh_editor_pro_core/main_window.py:283-284 | the probing loop ends and returns the first free candidate: every earlier candidate is taken |
| `Scenarios.ExecuteThenUndo` | mesh_editor_pro_core/main_window.py:96-119 | on a coherent window, execute then undo restores the shown actors, the registry up to order and the undo stack, and leaves exactly that command to redo |
| `Scenarios.UndoThenRedo` | mesh_editor_pro_core/main_window.py:108-132 | on a coherent window, undo then redo restores the shown actors, the registry up to order and both stacks |
| `Scenarios.ApplicableAt` | mesh_editor_pro_core/main_window.py:96-106 | along a sequence of commands each applicable in turn, every command is a real step with distinct references that applies where the previous ones left the shown actors |
| `Scenarios.ExecuteAll` | mesh_editor_pro_core/main_window.py:96-106 | executing such a sequence keeps coherence, pushes the commands in order and leaves the shown actors at the end of the sequence's trace |
| `Scenarios.UndoAll` | mesh_editor_pro_core/main_window.py:108-119 | undoing the commands on top of the undo stack, most recent first, takes them off and brings the shown actors back to where they started |
| `Scenarios.ExecuteAllThenUndoAll` | mesh_editor_pro_core/main_window.py:96-119 | executing any number of commands and undoing as many times restores the shown actors, the registry up to order and the undo stack |
| `Scenarios.TwoCubes` | mesh_editor_pro_core/main_window.py:279-290 | on a new window, two cubes in a row are named `Cube` and `Cube_1` |
| `Scenarios.CubeAndBall` | mesh_editor_pro_core/main_window.py:279-290 | on a new window, a cube and then a ball keep their names and are listed in creation order |
| `Scenarios.RenameThenUndoDelete` | mesh_editor_pro_core/main_window.py:353-366 | delete, rename to the deleted name, then undo the deletion: two shown actors are both named `Cube` |

## Left out

- The GUI is not part of this model: widgets, dialogs, menus, status bar, log panes and camera resets (`reset_camera_view`). The text the rename dialog returns and its OK flag are parameters of `RenameItem`.
- The object browser is not modelled. It agrees with the registry only while names are unique: removing an actor from the scene takes every browser entry with its name away (main_window.py:298), and rename relabels the clicked entry while renaming the first actor with that name (main_window.py:359-361).
- Geometry is not modelled. VTK polydata, mappers, colours and edge properties become a handle with a point count; only the empty-geometry guard uses it.
- The working plane, file input and output, plugins and the modelling operations that build new geometry are not part of this model. Most of them only construct commands, and the commands are modelled.
- Extrude and revolve with empty resulting geometry are not modelled. They create the new actor without executing it, which gives no actor when the geometry is empty (main_window.py:280), and still wrap it in a replace command (main_window.py:190-191, 203-204). `Op` always holds actual actors, so this path, after which the registry and the renderer are out of step, has no counterpart here.
- `MainWindow.MeshCreatorApp.SyncActorsFromCommand`: requires a command other than the base command. The source's dispatch table has no entry for the base command, but that command raises before the table is reached, so no caller gets there.
- `MainWindow.MeshCreatorApp.ExecuteCommand`: coherence is promised only for a command that is new to the undo stack and applies where it belongs. The source does not check either condition; a command that breaks them leaves the registry out of step with the renderer.
- Exceptions other than the base command's `NotImplementedError` are not modelled. The renderer's add and remove are taken never to fail.
- The renderer's actors hold scene actors only. The same renderer also shows the working-plane outline (main_window.py:326-328) and the shape preview (main_window.py:244, 248), which are never in the registry; they are not part of this model, and `Coherent` speaks of scene actors alone.
- The renderer's actors are a set of identities. VTK keeps them in a collection that ignores duplicates, and its order is not observable here.
