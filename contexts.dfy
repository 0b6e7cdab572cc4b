/**
 * `Atomik::$_execContexts` (Atomik.php:183): the stack of actions being
 * executed. `execute` pushes a frame for the action it runs and pops it when
 * the action is done (Atomik.php:444-489); `noRender` clears the render flag
 * of the frame on top (Atomik.php:517-522). The frame's `render` entry is a
 * reference to `execute`'s own `$render`, so clearing it from inside the
 * action is what keeps the view from being rendered.
 */
module ExecContexts {

  /** One execution context: the action, its view and whether the view is rendered. */
  datatype Frame = Frame(action: string, view: string, render: bool)

  /** `$_execContexts[] =& $context`. */
  function Pushed(fs: seq<Frame>, f: Frame): (r: seq<Frame>)
    ensures |r| == |fs| + 1 && r[|fs|] == f && r[..|fs|] == fs
  {
    fs + [f]
  }

  /** `array_pop($_execContexts)`: nothing happens to an empty stack. */
  function Popped(fs: seq<Frame>): (r: seq<Frame>)
    ensures fs == [] ==> r == []
    ensures fs != [] ==> |r| == |fs| - 1 && fs == r + [fs[|fs| - 1]]
  {
    if fs == [] then [] else fs[..|fs| - 1]
  }

  /** `noRender()`: only the top frame's flag is cleared. */
  function RenderOff(fs: seq<Frame>): (r: seq<Frame>)
    ensures |r| == |fs|
    ensures forall i :: 0 <= i < |fs| - 1 ==> r[i] == fs[i]
    ensures fs != [] ==> r[|fs| - 1] == fs[|fs| - 1].(render := false)
  {
    if fs == [] then [] else fs[..|fs| - 1] + [fs[|fs| - 1].(render := false)]
  }

  /** A frame pushed and then switched off by its own action leaves the frames below alone. */
  lemma RenderOffTouchesTopOnly(fs: seq<Frame>, f: Frame)
    ensures RenderOff(Pushed(fs, f)) == Pushed(fs, f.(render := false))
    ensures Popped(RenderOff(Pushed(fs, f))) == fs
  {
  }

  /** What `execute` hands back. */
  datatype Outcome =
    | Declined               // `return false`
    | Thrown                 // `throw new Exception('Action ... does not exist')`
    | Vars                   // the action's variables, the view not being rendered
    | Rendered(view: string) // `render($view, $vars, ...)`

  /**
   * What happens around one `execute($action, $render, ...)`, the parts of
   * it that are not this stack being parameters:
   *   `declined`  a listener of `Atomik::Execute::Start` set the action to false;
   *   `found`     the action file or the view file is found;
   *   `quiet`     the action calls `noRender()` while it runs.
   */
  datatype Run = Run(action: string, render: bool, triggerError: bool, declined: bool, found: bool, quiet: bool)

  /** The result `execute` is meant to give, independent of the stack. */
  function OutcomeOf(run: Run): (o: Outcome)
    ensures o.Rendered? ==> o.view == run.action
    ensures (o == Vars || o.Rendered?) <==> !run.declined && run.found
    ensures o == Thrown <==> !run.declined && !run.found && run.triggerError
    ensures o == Vars <==> !run.declined && run.found && (!run.render || run.quiet)
  {
    if run.declined then Declined
    else if !run.found then (if run.triggerError then Thrown else Declined)
    else if run.render && !run.quiet then Rendered(run.action)
    else Vars
  }

  /** The stack after `execute` as written: only a completed action pops its frame. */
  function FramesAfterAsWritten(fs: seq<Frame>, run: Run): (r: seq<Frame>)
    ensures !run.declined && run.found ==> r == fs
    ensures run.declined || !run.found ==> |r| == |fs| + 1 && r[..|fs|] == fs
  {
    var pushed := Pushed(fs, Frame(run.action, run.action, run.render));
    if run.declined || !run.found then pushed
    else
      RenderOffTouchesTopOnly(fs, Frame(run.action, run.action, run.render));
      Popped(if run.quiet then RenderOff(pushed) else pushed)
  }

  /**
   * As written, an action that runs a missing action without error leaves
   * that action's frame on the stack, and its own `noRender()` then clears
   * the leaked frame instead of its own: its view is still rendered.
   */
  lemma LeakedFrameTakesNoRender()
    ensures var outer := [Frame("page", "page", true)];
            var after := RenderOff(FramesAfterAsWritten(outer, Run("missing", true, false, false, false, false)));
            |after| == 2 && after[0].render
  {
  }

  /** The stack after `execute` once every way out pops the frame it pushed. */
  function FramesAfter(fs: seq<Frame>, run: Run): (r: seq<Frame>)
    ensures r == fs
  {
    var pushed := Pushed(fs, Frame(run.action, run.action, run.render));
    RenderOffTouchesTopOnly(fs, Frame(run.action, run.action, run.render));
    Popped(if run.quiet && !run.declined && run.found then RenderOff(pushed) else pushed)
  }

  /** With every exit popping, the caller's own `noRender()` reaches its own frame. */
  lemma NoRenderAfterNestedRun(fs: seq<Frame>, run: Run)
    requires fs != []
    ensures var after := RenderOff(FramesAfter(fs, run));
            |after| == |fs| && !after[|fs| - 1].render
  {
  }

  class Stack {
    var frames: seq<Frame>

    constructor ()
      ensures frames == []
    {
      frames := [];
    }

    method Push(f: Frame)
      modifies this
      ensures frames == Pushed(old(frames), f)
    {
      frames := frames + [f];
    }

    method Pop()
      modifies this
      ensures frames == Popped(old(frames))
    {
      if |frames| > 0 {
        frames := frames[..|frames| - 1];
      }
    }

    /** `noRender()`. */
    method NoRender()
      modifies this
      ensures frames == RenderOff(old(frames))
    {
      if |frames| > 0 {
        frames := frames[|frames| - 1 := frames[|frames| - 1].(render := false)];
      }
    }

    /**
     * `execute` as written: the frame is popped only on the path that runs
     * the action; the early `return false` and the exception leave it.
     */
    method ExecuteAsWritten(run: Run) returns (o: Outcome)
      modifies this
      ensures o == OutcomeOf(run)
      ensures frames == FramesAfterAsWritten(old(frames), run)
    {
      Push(Frame(run.action, run.action, run.render));
      if run.declined {
        return Declined;
      }
      if !run.found {
        if run.triggerError {
          return Thrown;
        }
        return Declined;
      }
      if run.quiet {
        NoRender();
      }
      var render := frames[|frames| - 1].render;
      Pop();
      if !render {
        return Vars;
      }
      return Rendered(run.action);
    }

    /** `execute` with its frame popped on every way out: the stack is as it was. */
    method Execute(run: Run) returns (o: Outcome)
      modifies this
      ensures o == OutcomeOf(run)
      ensures frames == old(frames)
    {
      Push(Frame(run.action, run.action, run.render));
      if run.declined {
        Pop();
        return Declined;
      }
      if !run.found {
        Pop();
        if run.triggerError {
          return Thrown;
        }
        return Declined;
      }
      if run.quiet {
        NoRender();
      }
      var render := frames[|frames| - 1].render;
      Pop();
      if !render {
        return Vars;
      }
      return Rendered(run.action);
    }
  }
}
