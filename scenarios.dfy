/**
 * Sessions with the editor window, written as client code: each method drives
 * a fresh window (or a given coherent one) through a sequence of user actions
 * and states what the window holds afterwards.
 */
module Scenarios {
  import opened Scene
  import opened Commands
  import opened Naming
  import opened MainWindow

  /**
   * Undo right after a successful execute puts the registry (up to order), the
   * renderer's actors and the undo stack back as they were, and leaves exactly
   * that command to redo.
   */
  method ExecuteThenUndo(app: MeshCreatorApp, c: Command)
    requires app.Coherent() && c.renderer == app.renderer && app.CanExecute(c)
    requires !c.op.Unimplemented?
    modifies app, app.renderer
    ensures app.Coherent()
    ensures multiset(app.actors) == old(multiset(app.actors))
    ensures app.renderer.actors == old(app.renderer.actors)
    ensures app.undoStack == old(app.undoStack) && app.redoStack == [c]
  {
    ghost var before := app.actors;
    RemovesListed(before, c.op, false);
    app.ExecuteCommand(c);
    app.Undo();
    assert (old(app.undoStack) + [c])[..|old(app.undoStack)|] == old(app.undoStack);
    EffectRoundTrip(c.op, old(app.renderer.actors), false);
    SyncRoundTrip(before, c.op, false);
  }

  /**
   * Redo right after a successful undo of the top command `c` puts the
   * registry (up to order), the renderer's actors and both stacks back as they
   * were.
   */
  method UndoThenRedo(app: MeshCreatorApp, c: Command)
    requires app.Coherent() && app.undoStack != [] && c == app.undoStack[|app.undoStack| - 1]
    requires !c.op.Unimplemented?
    modifies app, app.renderer
    ensures app.Coherent()
    ensures multiset(app.actors) == old(multiset(app.actors))
    ensures app.renderer.actors == old(app.renderer.actors)
    ensures app.undoStack == old(app.undoStack) && app.redoStack == old(app.redoStack)
  {
    ghost var before := app.actors;
    ghost var u := app.undoStack;
    ghost var r := app.redoStack;
    ReplayableTop(u, app.renderer.actors, true);
    EffectRoundTrip(c.op, app.renderer.actors, true);
    assert u[..|u| - 1] + [c] == u;
    assert (r + [c])[..|r|] == r;
    app.Undo();
    app.Redo();
    NoDupMultiset(app.actors, before);
  }

  /** Two cubes in a row on a new window: the first keeps its name, the second is named `Cube_1`. */
  method TwoCubes() returns (app: MeshCreatorApp, first: Actor, second: Actor)
    ensures first.name == "Cube" && second.name == "Cube_1"
    ensures app.actors == [first, second]
  {
    app := new MeshCreatorApp();
    first := app.CreateActorFromPolydata(Some(Geometry(1, 8)), Some("Cube"), true);
    ResolutionOfFreeBase(first.name, "Cube", {});
    NamesOfSingle(first);
    second := app.CreateActorFromPolydata(Some(Geometry(2, 8)), Some("Cube"), true);
    ResolutionOfFirstSuffix(second.name, "Cube", {"Cube"});
  }

  /** A new window after creating a `Cube` and then a `Ball`: both keep their names. */
  method CubeAndBall() returns (app: MeshCreatorApp, cube: Actor, ball: Actor)
    ensures fresh(app) && fresh(app.renderer) && app.Valid() && fresh(cube) && fresh(ball) && cube != ball
    ensures app.actors == [cube, ball] && cube.name == "Cube" && ball.name == "Ball"
  {
    app := new MeshCreatorApp();
    cube := app.CreateActorFromPolydata(Some(Geometry(1, 8)), Some("Cube"), true);
    ResolutionOfFreeBase(cube.name, "Cube", {});
    NamesOfSingle(cube);
    ball := app.CreateActorFromPolydata(Some(Geometry(2, 8)), Some("Ball"), true);
    ResolutionOfFreeBase(ball.name, "Ball", {"Cube"});
  }

  /**
   * Names are checked only against the actors shown at the time: delete the
   * cube, rename the ball to `Cube` (free by then), undo the deletion, and two
   * shown actors carry the same name.
   */
  method RenameThenUndoDelete() returns (app: MeshCreatorApp)
    ensures |app.actors| == 2 && app.actors[0].name == app.actors[1].name == "Cube"
    ensures !app.UniqueNames()
  {
    var cube, ball;
    app, cube, ball := CubeAndBall();
    assert IndexOfName(app.actors, "Cube") == 0;
    assert RemoveFirst([cube, ball], cube) == [ball];
    app.DeleteActorByName("Cube");
    NamesOfSingle(ball);
    assert Names(app.actors) - {"Ball"} == {};
    var shown := app.RenameItem("Ball", "Cube", true);
    ResolutionOfFreeBase(shown, "Cube", {});
    RemoveEachSingle([ball], cube);
    app.Undo();
  }

  /**
   * Each command of `cs` in turn executes where it belongs, starting from the
   * shown actors `s`; none of them is the base command.
   */
  ghost predicate Applicable(cs: seq<Command>, s: set<Actor>)
    decreases |cs|
  {
    cs == [] ||
    (&& !cs[0].op.Unimplemented? && Distinct(cs[0].op) && Exact(cs[0].op, s, false)
     && Applicable(cs[1..], Effect(s, cs[0].op, false)))
  }

  /**
   * The shown actors seen while executing each of `cs` in turn, starting from
   * `s`: the `j`-th entry is what is shown before the `j`-th command.
   */
  ghost function Trace(s: set<Actor>, cs: seq<Command>): (r: seq<set<Actor>>)
    decreases |cs|
    ensures |r| == |cs| + 1 && r[0] == s
  {
    if cs == [] then [s] else [s] + Trace(Effect(s, cs[0].op, false), cs[1..])
  }

  /**
   * Along an applicable sequence every command is a real, distinct step that
   * applies exactly where the trace has got to, and leads to the next entry.
   */
  lemma {:induction false} ApplicableAt(cs: seq<Command>, s: set<Actor>, j: nat)
    requires Applicable(cs, s) && j < |cs|
    ensures var t := Trace(s, cs);
            && !cs[j].op.Unimplemented? && Distinct(cs[j].op) && Exact(cs[j].op, t[j], false)
            && t[j + 1] == Effect(t[j], cs[j].op, false)
    decreases j
  {
    if j > 0 {
      ApplicableAt(cs[1..], Effect(s, cs[0].op, false), j - 1);
    }
  }

  /**
   * Executes new commands one after another: each is pushed, and the shown
   * actors follow every step of the trace.
   */
  method ExecuteAll(app: MeshCreatorApp, cs: seq<Command>)
    requires app.Coherent() && Applicable(cs, app.renderer.actors)
    requires NoDup(cs) && Elems(cs) !! Elems(app.undoStack)
    requires forall i :: 0 <= i < |cs| ==> cs[i].renderer == app.renderer
    modifies app, app.renderer
    ensures app.Coherent() && app.undoStack == old(app.undoStack) + cs
    ensures app.renderer.actors == Trace(old(app.renderer.actors), cs)[|cs|]
  {
    ghost var u := app.undoStack;
    ghost var t := Trace(app.renderer.actors, cs);
    forall j | 0 <= j < |cs|
      ensures && !cs[j].op.Unimplemented? && Distinct(cs[j].op) && Exact(cs[j].op, t[j], false)
              && t[j + 1] == Effect(t[j], cs[j].op, false)
    {
      ApplicableAt(cs, app.renderer.actors, j);
    }
    var i := 0;
    while i < |cs|
      invariant 0 <= i <= |cs|
      invariant app.Coherent() && app.undoStack == u + cs[..i]
      invariant app.renderer.actors == t[i]
    {
      var c := cs[i];
      assert c !in app.undoStack by {
        assert c in Elems(cs);
        assert forall j :: 0 <= j < i ==> cs[j] != cs[i];
      }
      PushNext(u, cs, i);
      app.ExecuteCommand(c);
      i := i + 1;
    }
    assert cs[..|cs|] == cs;
  }

  /**
   * Undoes the commands `cs` that sit on top of the undo stack, most recent
   * first, given the trace `t` they were executed along: the undo stack drops
   * them and the shown actors go back to the trace's first entry.
   */
  method UndoAll(app: MeshCreatorApp, cs: seq<Command>, ghost u: seq<Command>, ghost t: seq<set<Actor>>)
    requires app.Coherent() && app.undoStack == u + cs
    requires |t| == |cs| + 1 && app.renderer.actors == t[|cs|]
    requires forall k :: 0 <= k < |cs| ==>
               && !cs[k].op.Unimplemented? && Exact(cs[k].op, t[k], false)
               && t[k + 1] == Effect(t[k], cs[k].op, false)
    modifies app, app.renderer
    ensures app.Coherent() && app.undoStack == u
    ensures app.renderer.actors == t[0]
  {
    var k := |cs|;
    assert cs[..k] == cs;
    while k > 0
      invariant 0 <= k <= |cs|
      invariant app.Coherent() && app.undoStack == u + cs[..k]
      invariant app.renderer.actors == t[k]
    {
      EffectRoundTrip(cs[k - 1].op, t[k - 1], false);
      PopLast(u, cs, k);
      app.Undo();
      k := k - 1;
    }
    PushNone(u, cs);
  }

  /**
   * Executing new commands one after another and then undoing as many times
   * puts the shown actors, the registry (up to order) and the undo stack back
   * as they were.
   */
  method ExecuteAllThenUndoAll(app: MeshCreatorApp, cs: seq<Command>)
    requires app.Coherent() && Applicable(cs, app.renderer.actors)
    requires NoDup(cs) && Elems(cs) !! Elems(app.undoStack)
    requires forall i :: 0 <= i < |cs| ==> cs[i].renderer == app.renderer
    modifies app, app.renderer
    ensures app.Coherent()
    ensures app.renderer.actors == old(app.renderer.actors)
    ensures multiset(app.actors) == old(multiset(app.actors))
    ensures app.undoStack == old(app.undoStack)
  {
    ghost var u := app.undoStack;
    ghost var start := app.actors;
    ghost var t := Trace(app.renderer.actors, cs);
    forall j | 0 <= j < |cs|
      ensures && !cs[j].op.Unimplemented? && Exact(cs[j].op, t[j], false)
              && t[j + 1] == Effect(t[j], cs[j].op, false)
    {
      ApplicableAt(cs, app.renderer.actors, j);
    }
    ExecuteAll(app, cs);
    UndoAll(app, cs, u, t);
    NoDupMultiset(app.actors, start);
  }
}
