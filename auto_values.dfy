/**
 * The calls the walk makes on AutoValueExtractor. The extractor's own code is not
 * part of this model: each call is recorded with the scope (the stack of control
 * names) it was made in, and the scope stack itself is kept.
 */
module AutoValues {
  import opened Wrappers

  /** What an extraction was applied to. */
  datatype ExtractTarget =
    | RuleFields(property: string)
    | ControlFields(name: string)
    | ComponentChildren(owner: string)

  datatype ExtractorCall =
    | PushControl(name: string)
    | PopControl
    | Extract(scope: seq<string>, target: ExtractTarget)

  class AutoValueExtractor {
    /** The current scope: the names of the controls being walked, outermost first. */
    var path: seq<string>
    /** Every call so far, in order. */
    var calls: seq<ExtractorCall>

    constructor ()
      ensures path == [] && calls == []
    {
      path := [];
      calls := [];
    }

    method PushControl(name: string)
      modifies this
      ensures path == old(path) + [name]
      ensures calls == old(calls) + [ExtractorCall.PushControl(name)]
    {
      path := path + [name];
      calls := calls + [ExtractorCall.PushControl(name)];
    }

    /** Leaves the innermost scope; popping an empty scope is not modelled. */
    method PopControl()
      requires |path| > 0
      modifies this
      ensures path == old(path)[..|old(path)| - 1]
      ensures calls == old(calls) + [ExtractorCall.PopControl]
    {
      path := path[..|path| - 1];
      calls := calls + [ExtractorCall.PopControl];
    }

    /** Extract(rule), Extract(control), ExtractComponentChildren(children) */
    method Extract(target: ExtractTarget)
      modifies this
      ensures path == old(path)
      ensures calls == old(calls) + [ExtractorCall.Extract(old(path), target)]
    {
      calls := calls + [ExtractorCall.Extract(path, target)];
    }
  }

  /**
   * Replays calls from the scope stack: None when a pop finds the stack empty or an
   * extraction claims a scope other than the current one.
   */
  function Replay(stack: seq<string>, calls: seq<ExtractorCall>): Option<seq<string>>
    decreases |calls|
  {
    if calls == [] then Some(stack)
    else match calls[0]
      case PushControl(name) => Replay(stack + [name], calls[1..])
      case PopControl => if stack == [] then None else Replay(stack[..|stack| - 1], calls[1..])
      case Extract(scope, _) => if scope == stack then Replay(stack, calls[1..]) else None
  }

  /** Replaying a concatenation replays the second part from where the first one left off. */
  lemma {:induction false} ReplayAppend(stack: seq<string>, a: seq<ExtractorCall>, b: seq<ExtractorCall>)
    ensures Replay(stack, a + b) == match Replay(stack, a) case Some(s) => Replay(s, b) case None => None
    decreases |a|
  {
    if a != [] {
      assert (a + b)[0] == a[0] && (a + b)[1..] == a[1..] + b;
      match a[0]
      case PushControl(name) => ReplayAppend(stack + [name], a[1..], b);
      case PopControl => if stack != [] { ReplayAppend(stack[..|stack| - 1], a[1..], b); }
      case Extract(scope, _) => if scope == stack { ReplayAppend(stack, a[1..], b); }
    } else {
      assert a + b == b;
    }
  }
}
