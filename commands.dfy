/**
 * Reversible mutations of the renderer's actor collection.
 *
 * Each command variant holds the actors it needs to invert itself; `Execute`
 * and `Undo` add and remove exactly those actors. The plain base command has
 * no effect of its own: both of its operations fail.
 */
module Commands {
  import opened Scene

  /** The command variants, with the actor references each one holds. */
  datatype Op =
    | Unimplemented                                                 // the base command
    | Add(actor: Actor)
    | Delete(actor: Actor)
    | Replace(newActor: Actor, oldActor: Actor)
    | Boolean(newActor: Actor, oldActor1: Actor, oldActor2: Actor)

  /** The actor references a command holds. */
  function Refs(op: Op): set<Actor>
  {
    match op
    case Unimplemented => {}
    case Add(a) => {a}
    case Delete(a) => {a}
    case Replace(n, o) => {n, o}
    case Boolean(n, o1, o2) => {n, o1, o2}
  }

  /**
   * The actors that the forward (`isUndo` false) or backward step removes, in
   * call order: at most two of the command's own references, none of which the
   * same step adds back when the references are distinct.
   */
  function Removes(op: Op, isUndo: bool): (r: seq<Actor>)
    ensures |r| <= 2 && Elems(r) <= Refs(op)
    ensures Distinct(op) ==> Elems(r) !! Elems(Adds(op, isUndo))
  {
    match op
    case Unimplemented => []
    case Add(a) => if isUndo then [a] else []
    case Delete(a) => if isUndo then [] else [a]
    case Replace(n, o) => if isUndo then [n] else [o]
    case Boolean(n, o1, o2) => if isUndo then [n] else [o1, o2]
  }

  /** The actors that the forward or backward step adds, in call order, after its removals. */
  function Adds(op: Op, isUndo: bool): (r: seq<Actor>)
    ensures |r| <= 2 && Elems(r) <= Refs(op)
  {
    match op
    case Unimplemented => []
    case Add(a) => if isUndo then [] else [a]
    case Delete(a) => if isUndo then [a] else []
    case Replace(n, o) => if isUndo then [o] else [n]
    case Boolean(n, o1, o2) => if isUndo then [o1, o2] else [n]
  }

  /**
   * The actor collection after one step of `op` on `s`: every actor the step
   * adds is shown, no actor is newly shown except those, no actor is hidden
   * except those the step removes, and every removed actor it does not add
   * back is hidden.
   */
  function Effect(s: set<Actor>, op: Op, isUndo: bool): (r: set<Actor>)
    ensures Elems(Adds(op, isUndo)) <= r <= s + Elems(Adds(op, isUndo))
    ensures s - Elems(Removes(op, isUndo)) <= r
    ensures (Elems(Removes(op, isUndo)) - Elems(Adds(op, isUndo))) !! r
  {
    s - Elems(Removes(op, isUndo)) + Elems(Adds(op, isUndo))
  }

  /** The references a command holds are pairwise distinct (a new result is never one of its operands). */
  predicate Distinct(op: Op)
  {
    match op
    case Replace(n, o) => n != o
    case Boolean(n, o1, o2) => n != o1 && n != o2 && o1 != o2
    case _ => true
  }

  /** The step is applied where it belongs: what it removes is shown and what it adds is not. */
  ghost predicate Exact(op: Op, s: set<Actor>, isUndo: bool)
  {
    Elems(Removes(op, isUndo)) <= s && Elems(Adds(op, isUndo)) !! s
  }

  /** Undo removes what execute added and adds back what execute removed. */
  lemma UndoMirrorsExecute(op: Op)
    ensures Removes(op, true) == Adds(op, false)
    ensures Adds(op, true) == Removes(op, false)
  {
  }

  /**
   * Execute followed by undo (or undo followed by redo) gives back the actor
   * collection exactly, provided the first step was applied where it belongs;
   * the second step is then applied where it belongs too.
   */
  lemma {:induction false} EffectRoundTrip(op: Op, s: set<Actor>, isUndo: bool)
    requires Exact(op, s, isUndo)
    ensures Exact(op, Effect(s, op, isUndo), !isUndo)
    ensures Effect(Effect(s, op, isUndo), op, !isUndo) == s
  {
    UndoMirrorsExecute(op);
  }

  /** A step shows every actor it adds, hides every actor it removes, and touches no other actor. */
  lemma EffectPlacement(op: Op, s: set<Actor>, isUndo: bool)
    requires Distinct(op)
    ensures forall a :: a in Adds(op, isUndo) ==> a in Effect(s, op, isUndo)
    ensures forall a :: a in Removes(op, isUndo) ==> a !in Effect(s, op, isUndo)
    ensures forall a :: a !in Adds(op, isUndo) && a !in Removes(op, isUndo) ==>
                          (a in Effect(s, op, isUndo) <==> a in s)
  {
  }

  /** A command object: a variant and the renderer it acts on, both fixed at construction. */
  class Command {
    const renderer: Renderer
    const op: Op

    constructor (renderer: Renderer, op: Op)
      ensures this.renderer == renderer && this.op == op
    {
      this.renderer := renderer;
      this.op := op;
    }

    /** Applies the command; `ok` is false when the base command raises. */
    method Execute() returns (ok: bool)
      modifies renderer
      ensures ok <==> !op.Unimplemented?
      ensures renderer.actors == Effect(old(renderer.actors), op, false)
    {
      match op
      case Unimplemented =>
        ok := false;
      case Add(a) =>
        renderer.AddActor(a);
        ok := true;
      case Delete(a) =>
        renderer.RemoveActor(a);
        ok := true;
      case Replace(n, o) =>
        renderer.RemoveActor(o);
        renderer.AddActor(n);
        ok := true;
      case Boolean(n, o1, o2) =>
        renderer.RemoveActor(o1);
        renderer.RemoveActor(o2);
        renderer.AddActor(n);
        ok := true;
    }

    /** Reverts the command; `ok` is false when the base command raises. */
    method Undo() returns (ok: bool)
      modifies renderer
      ensures ok <==> !op.Unimplemented?
      ensures renderer.actors == Effect(old(renderer.actors), op, true)
    {
      match op
      case Unimplemented =>
        ok := false;
      case Add(a) =>
        renderer.RemoveActor(a);
        ok := true;
      case Delete(a) =>
        renderer.AddActor(a);
        ok := true;
      case Replace(n, o) =>
        renderer.RemoveActor(n);
        renderer.AddActor(o);
        ok := true;
      case Boolean(n, o1, o2) =>
        renderer.RemoveActor(n);
        renderer.AddActor(o1);
        renderer.AddActor(o2);
        ok := true;
    }
  }
}
