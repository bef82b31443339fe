/** The focus-to-layer switching policy and the control loop of src/main.rs. */
module Switcher {
  import opened Prelude
  import opened Layers
  import opened Config
  import opened Keyboard
  import opened QmkFirmware

  /** One focus change as the window client reports it: the focused window's class
      name, or nothing when the class cannot be read or is not UTF-8 (the callback
      is then not called). */
  datatype Focus = Class(name: string) | Unresolved

  /** The outcome of one decision: the layer to write, if any, and the new value of
      `last_window_was_custom`. */
  datatype Decision = Decision(command: Option<Layer>, custom: bool)

  /** The per-class decision of the loop's closure, given the flag and the class's rule. */
  function Decide(custom: bool, rule: Option<Layer>): (d: Decision)
    ensures d.custom <==> rule.Some?
    ensures d.command.Some? <==> rule.Some? || custom
    ensures rule.Some? ==> d.command == rule
    ensures rule.None? && d.command.Some? ==> d.command.value == Zero
  {
    match rule
    case Some(layer) => Decision(Some(layer), true)
    case None => if custom then Decision(Some(Zero), false) else Decision(None, custom)
  }

  /** The flag after deciding on every class of `classes` in turn, from `custom`, when
      every write succeeds. */
  function After(custom: bool, rules: TitleMap, classes: seq<string>): bool
    decreases |classes|
  {
    if classes == [] then custom
    else
      var prev := classes[..|classes| - 1];
      Decide(After(custom, rules, prev), LayerFor(rules, classes[|classes| - 1])).custom
  }

  /** The commands issued for `classes`, one per class, when every write succeeds. */
  function Trace(custom: bool, rules: TitleMap, classes: seq<string>): (cmds: seq<Option<Layer>>)
    ensures |cmds| == |classes|
    decreases |classes|
  {
    if classes == [] then []
    else
      var prev := classes[..|classes| - 1];
      Trace(custom, rules, prev)
        + [Decide(After(custom, rules, prev), LayerFor(rules, classes[|classes| - 1])).command]
  }

  /** The class names among focus changes, in order. */
  function Classes(events: seq<Focus>): (cs: seq<string>)
    ensures |cs| <= |events|
    decreases |events|
  {
    if events == [] then []
    else
      var last := events[|events| - 1];
      Classes(events[..|events| - 1]) + if last.Class? then [last.name] else []
  }

  /** The report written for one command: none for no command. */
  function CommandFrames(cmd: Option<Layer>): seq<seq<byte>>
  {
    if cmd.Some? then [Frame(cmd.value)] else []
  }

  /** The reports written for a run of commands. */
  function Frames(cmds: seq<Option<Layer>>): seq<seq<byte>>
    decreases |cmds|
  {
    if cmds == [] then [] else Frames(cmds[..|cmds| - 1]) + CommandFrames(cmds[|cmds| - 1])
  }

  lemma ClassesSnoc(events: seq<Focus>, k: nat)
    requires k < |events|
    ensures Classes(events[..k + 1])
         == Classes(events[..k]) + if events[k].Class? then [events[k].name] else []
  {
    assert events[..k + 1][..k] == events[..k];
  }

  lemma TraceSnoc(custom: bool, rules: TitleMap, classes: seq<string>, c: string)
    ensures var d := Decide(After(custom, rules, classes), LayerFor(rules, c));
      && After(custom, rules, classes + [c]) == d.custom
      && Trace(custom, rules, classes + [c]) == Trace(custom, rules, classes) + [d.command]
  {
    assert (classes + [c])[..|classes|] == classes;
  }

  lemma FramesSnoc(cmds: seq<Option<Layer>>, cmd: Option<Layer>)
    ensures Frames(cmds + [cmd]) == Frames(cmds) + CommandFrames(cmd)
  {
    assert (cmds + [cmd])[..|cmds|] == cmds;
  }

  /** The keyboard's layer after one command reaches it: the firmware moves to the
      command's layer when it has that layer. */
  function Move(current: nat, layers: nat, cmd: Option<Layer>): nat
  {
    if cmd.Some? && Ordinal(cmd.value) < layers then Ordinal(cmd.value) else current
  }

  /** The reply code the firmware sends for one command: none for no command. */
  function Reply(layers: nat, cmd: Option<Layer>): seq<byte>
  {
    if cmd.Some? then [if Ordinal(cmd.value) < layers then OK else INVALID_INDEX] else []
  }

  /** The keyboard's layer after a run of commands has reached it, from `current`. */
  function Settle(current: nat, layers: nat, cmds: seq<Option<Layer>>): nat
    decreases |cmds|
  {
    if cmds == [] then current
    else Move(Settle(current, layers, cmds[..|cmds| - 1]), layers, cmds[|cmds| - 1])
  }

  /** The reply codes the firmware sends for a run of commands. */
  function Codes(layers: nat, cmds: seq<Option<Layer>>): seq<byte>
    decreases |cmds|
  {
    if cmds == [] then [] else Codes(layers, cmds[..|cmds| - 1]) + Reply(layers, cmds[|cmds| - 1])
  }

  /** Every layer the commands name exists on a keyboard with `layers` layers. */
  predicate AllExist(layers: nat, cmds: seq<Option<Layer>>)
  {
    forall k :: 0 <= k < |cmds| && cmds[k].Some? ==> Ordinal(cmds[k].value) < layers
  }

  lemma FirmwareSnoc(current: nat, layers: nat, cmds: seq<Option<Layer>>, cmd: Option<Layer>)
    ensures Settle(current, layers, cmds + [cmd]) == Move(Settle(current, layers, cmds), layers, cmd)
    ensures Codes(layers, cmds + [cmd]) == Codes(layers, cmds) + Reply(layers, cmd)
    ensures AllExist(layers, cmds + [cmd])
        <==> AllExist(layers, cmds) && (cmd.Some? ==> Ordinal(cmd.value) < layers)
  {
    var next := cmds + [cmd];
    assert next[..|cmds|] == cmds;
    assert forall k :: 0 <= k < |cmds| ==> next[k] == cmds[k];
  }

  /** The keyboard's log of reports and the firmware's layer and replies are those a run
      of commands leaves, from `sent0`, `current0` and `replies0`. */
  ghost predicate Reflects(layers: nat, sent0: seq<seq<byte>>, current0: nat, replies0: seq<byte>,
                           cmds: seq<Option<Layer>>, sent: seq<seq<byte>>, current: nat, replies: seq<byte>)
  {
    && sent == sent0 + Frames(cmds)
    && current == Settle(current0, layers, cmds)
    && replies == replies0 + Codes(layers, cmds)
  }

  /** One command's effect, as `OnFocus` describes it, extends the run of commands that
      reached the keyboard by that command, unless its write failed. */
  lemma ReflectsStep(layers: nat, sent0: seq<seq<byte>>, current0: nat, replies0: seq<byte>,
                     cmds: seq<Option<Layer>>, cmd: Option<Layer>, t: Transfer,
                     sent: seq<seq<byte>>, current: nat, replies: seq<byte>,
                     sent': seq<seq<byte>>, current': nat, replies': seq<byte>)
    requires Reflects(layers, sent0, current0, replies0, cmds, sent, current, replies)
    requires sent' == sent + if t.WriteFailed? then [] else CommandFrames(cmd)
    requires cmd.None? || t.WriteFailed? ==> current' == current && replies' == replies
    requires !t.WriteFailed? ==> current' == Move(current, layers, cmd) && replies' == replies + Reply(layers, cmd)
    ensures cmd.None? || !t.WriteFailed? ==>
      Reflects(layers, sent0, current0, replies0, cmds + [cmd], sent', current', replies')
    ensures Reflects(layers, sent0, current0, replies0,
                     cmds + (if t.WriteFailed? then [] else [cmd]), sent', current', replies')
  {
    FirmwareSnoc(current0, layers, cmds, cmd);
    FramesSnoc(cmds, cmd);
    assert cmds + [] == cmds;
  }

  /** The keyboard ends on the layer of the last command issued (index `k`), or where it
      started when no command was issued (`k == -1`), provided that layer exists. */
  lemma {:induction false} SettleIsLastWritten(current: nat, layers: nat, cmds: seq<Option<Layer>>, k: int)
    requires -1 <= k < |cmds|
    requires k >= 0 ==> cmds[k].Some? && Ordinal(cmds[k].value) < layers
    requires forall j :: k < j < |cmds| ==> cmds[j].None?
    ensures Settle(current, layers, cmds) == if k < 0 then current else Ordinal(cmds[k].value)
    decreases |cmds|
  {
    if cmds != [] && k < |cmds| - 1 {
      var prev := cmds[..|cmds| - 1];
      assert forall j :: k < j < |prev| ==> prev[j] == cmds[j];
      SettleIsLastWritten(current, layers, prev, k);
      assert k >= 0 ==> prev[k] == cmds[k];
    }
  }

  /** The firmware answers every written report with one code, and every code is `OK`
      when every commanded layer exists. */
  lemma {:induction false} CodesMatchFrames(layers: nat, cmds: seq<Option<Layer>>)
    ensures |Codes(layers, cmds)| == |Frames(cmds)|
    ensures AllExist(layers, cmds) ==> forall i :: 0 <= i < |Codes(layers, cmds)| ==> Codes(layers, cmds)[i] == OK
    decreases |cmds|
  {
    if cmds != [] {
      var n := |cmds| - 1;
      var prev := cmds[..n];
      CodesMatchFrames(layers, prev);
      if AllExist(layers, cmds) {
        assert AllExist(layers, prev) by {
          forall k | 0 <= k < n && prev[k].Some?
            ensures Ordinal(prev[k].value) < layers
          {
            assert prev[k] == cmds[k];
          }
        }
      }
    }
  }

  /** How the flag and the commands move on by one focus change. */
  lemma LoopStep(custom0: bool, rules: TitleMap, done: seq<string>, event: Focus)
    ensures var next := done + if event.Class? then [event.name] else [];
      && (event.Unresolved? ==> After(custom0, rules, next) == After(custom0, rules, done)
                                && Trace(custom0, rules, next) == Trace(custom0, rules, done))
      && (event.Class? ==>
            var d := Decide(After(custom0, rules, done), LayerFor(rules, event.name));
            && After(custom0, rules, next) == d.custom
            && Trace(custom0, rules, next) == Trace(custom0, rules, done) + [d.command])
  {
    if event.Class? {
      TraceSnoc(custom0, rules, done, event.name);
    } else {
      assert done + [] == done;
    }
  }

  // ---------------------------------------------------------------------------
  // What the policy promises over a run of classes

  /** The command for the `k`-th class is the decision on that class from the flag the
      earlier classes left. */
  lemma {:induction false} TraceAt(custom: bool, rules: TitleMap, classes: seq<string>, k: nat)
    requires k < |classes|
    ensures Trace(custom, rules, classes)[k]
         == Decide(After(custom, rules, classes[..k]), LayerFor(rules, classes[k])).command
    decreases |classes|
  {
    var n := |classes| - 1;
    var prev := classes[..n];
    if k < n {
      TraceAt(custom, rules, prev, k);
      assert prev[..k] == classes[..k];
    }
  }

  /** After at least one class the flag says whether the last class had a rule. */
  lemma FlagIsLastMatch(custom: bool, rules: TitleMap, classes: seq<string>)
    requires classes != []
    ensures After(custom, rules, classes) <==> classes[|classes| - 1] in rules
  {
  }

  /** A class with a rule has its layer written every time it gains focus, whatever
      came before and even when that layer was the last one written. */
  lemma RuledClassAlwaysWritten(custom: bool, rules: TitleMap, classes: seq<string>, k: nat)
    requires k < |classes| && classes[k] in rules
    ensures Trace(custom, rules, classes)[k] == Some(rules[classes[k]])
  {
    TraceAt(custom, rules, classes, k);
  }

  /** With no custom switch outstanding, classes without rules write nothing and leave
      the flag cleared. */
  lemma {:induction false} QuietWhileUnruled(rules: TitleMap, classes: seq<string>)
    requires forall k :: 0 <= k < |classes| ==> classes[k] !in rules
    ensures Trace(false, rules, classes) == seq(|classes|, _ => None)
    ensures !After(false, rules, classes)
    decreases |classes|
  {
    if classes != [] {
      QuietWhileUnruled(rules, classes[..|classes| - 1]);
    }
  }

  /** Sticky reset: after a class with a rule, a run of classes without rules writes
      the base layer once, on the first of them, and nothing after that. */
  lemma {:induction false} StickyReset(custom: bool, rules: TitleMap, ruled: string, unruled: seq<string>)
    requires ruled in rules
    requires |unruled| >= 1
    requires forall k :: 0 <= k < |unruled| ==> unruled[k] !in rules
    ensures Trace(custom, rules, [ruled] + unruled)
         == [Some(rules[ruled]), Some(Zero)] + seq(|unruled| - 1, _ => None)
    ensures !After(custom, rules, [ruled] + unruled)
    decreases |unruled|
  {
    var classes := [ruled] + unruled;
    var n := |unruled| - 1;
    if n == 0 {
      assert classes[..1] == [ruled];
      assert [ruled][..0] == [];
    } else {
      var shorter := unruled[..n];
      StickyReset(custom, rules, ruled, shorter);
      assert classes[..|classes| - 1] == [ruled] + shorter;
      var nothing: Option<Layer> := None;
      assert seq(n - 1, _ => nothing) + [nothing] == seq(n, _ => nothing);
    }
  }

  /** A rule for "Steam" on layer 3: focusing Steam, then Firefox twice, writes layer 3,
      then the base layer, then nothing. */
  lemma SteamThenFirefox()
    ensures var rules := map["Steam" := 3 as Layer];
      Trace(false, rules, ["Steam", "Firefox", "Firefox"]) == [Some(3 as Layer), Some(Zero), None]
  {
    var rules := map["Steam" := 3 as Layer];
    StickyReset(false, rules, "Steam", ["Firefox", "Firefox"]);
    assert ["Steam"] + ["Firefox", "Firefox"] == ["Steam", "Firefox", "Firefox"];
  }

  /** The policy: the rule table and the `last_window_was_custom` flag. */
  class SwitchPolicy {
    const rules: TitleMap
    var custom: bool

    /** The flag starts cleared: no custom switch yet. */
    constructor (rules: TitleMap)
      ensures this.rules == rules && !custom
    {
      this.rules := rules;
      custom := false;
    }

    /** The closure run for one class name: a ruled class writes its layer and marks the
        switch custom; an unruled class after a custom switch writes `Zero` and clears
        the mark; an unruled class otherwise writes nothing. A failed write returns
        before the flag is assigned. */
    method Step(wmClass: string, keyboard: Keyboard, t: Transfer) returns (r: KeyboardResult)
      requires keyboard.Valid()
      modifies this, keyboard, keyboard.device
      ensures keyboard.Valid()
      ensures var cmd := Decide(old(custom), LayerFor(rules, wmClass)).command;
        r == if cmd.Some? then SetLayerResult(keyboard.device.layers, cmd.value, t) else Ok(())
      ensures var cmd := Decide(old(custom), LayerFor(rules, wmClass)).command;
        keyboard.sent == old(keyboard.sent) + if t.WriteFailed? then [] else CommandFrames(cmd)
      ensures var cmd := Decide(old(custom), LayerFor(rules, wmClass)).command;
        && (cmd.None? || t.WriteFailed? ==> unchanged(keyboard.device))
        && (!t.WriteFailed? ==>
              && keyboard.device.current == Move(old(keyboard.device.current), keyboard.device.layers, cmd)
              && keyboard.device.replies == old(keyboard.device.replies) + Reply(keyboard.device.layers, cmd))
        && (cmd.Some? && r.Ok? ==> keyboard.device.current == Ordinal(cmd.value))
      ensures custom == if r.Ok? then Decide(old(custom), LayerFor(rules, wmClass)).custom else old(custom)
    {
      var rule := LayerFor(rules, wmClass);
      if rule.Some? {
        r := keyboard.SetLayer(rule.value, t);
        if r.Err? {
          return;
        }
        custom := true;
      } else if custom {
        r := keyboard.SetLayer(Zero, t);
        if r.Err? {
          return;
        }
        custom := false;
      } else {
        r := Ok(());
      }
    }

    /** One focus change: the window client runs the closure only when the focused
        window's class name could be read. */
    method OnFocus(event: Focus, keyboard: Keyboard, t: Transfer) returns (r: KeyboardResult)
      requires keyboard.Valid()
      modifies this, keyboard, keyboard.device
      ensures keyboard.Valid()
      ensures event.Unresolved? ==> r == Ok(()) && custom == old(custom) && unchanged(keyboard, keyboard.device)
      ensures event.Class? ==>
        var d := Decide(old(custom), LayerFor(rules, event.name));
        && r == (if d.command.Some? then SetLayerResult(keyboard.device.layers, d.command.value, t) else Ok(()))
        && custom == (if r.Ok? then d.custom else old(custom))
        && keyboard.sent == old(keyboard.sent) + (if t.WriteFailed? then [] else CommandFrames(d.command))
        && (d.command.None? || t.WriteFailed? ==> unchanged(keyboard.device))
        && (!t.WriteFailed? ==>
              && keyboard.device.current == Move(old(keyboard.device.current), keyboard.device.layers, d.command)
              && keyboard.device.replies
                 == old(keyboard.device.replies) + Reply(keyboard.device.layers, d.command))
    {
      r := Ok(());
      if event.Class? {
        r := Step(event.name, keyboard, t);
      }
    }

    /** One turn of the control loop, stated against the run so far: `done` are the
        classes handled since the loop started from `custom0`, `sent0`, `current0` and
        `replies0`. */
    method Handle(event: Focus, keyboard: Keyboard, t: Transfer, ghost custom0: bool, ghost done: seq<string>,
                  ghost sent0: seq<seq<byte>>, ghost current0: nat, ghost replies0: seq<byte>)
      returns (r: KeyboardResult)
      requires keyboard.Valid()
      requires custom == After(custom0, rules, done)
      requires Reflects(keyboard.device.layers, sent0, current0, replies0, Trace(custom0, rules, done),
                        keyboard.sent, keyboard.device.current, keyboard.device.replies)
      requires AllExist(keyboard.device.layers, Trace(custom0, rules, done))
      modifies this, keyboard, keyboard.device
      ensures keyboard.Valid()
      ensures var next := done + if event.Class? then [event.name] else [];
        r.Ok? ==>
          && custom == After(custom0, rules, next)
          && Reflects(keyboard.device.layers, sent0, current0, replies0, Trace(custom0, rules, next),
                      keyboard.sent, keyboard.device.current, keyboard.device.replies)
          && AllExist(keyboard.device.layers, Trace(custom0, rules, next))
      ensures r.Err? ==>
        && event.Class?
        && custom == old(custom)
        && var cmd := Decide(custom, LayerFor(rules, event.name)).command;
        && cmd.Some?
        && r == SetLayerResult(keyboard.device.layers, cmd.value, t)
        && Reflects(keyboard.device.layers, sent0, current0, replies0,
                    Trace(custom0, rules, done) + (if t.WriteFailed? then [] else [cmd]),
                    keyboard.sent, keyboard.device.current, keyboard.device.replies)
    {
      ghost var layers := keyboard.device.layers;
      LoopStep(custom0, rules, done, event);
      ghost var cmds := Trace(custom0, rules, done);
      ghost var cmd := if event.Class? then Decide(custom, LayerFor(rules, event.name)).command else None;
      FirmwareSnoc(current0, layers, cmds, cmd);
      ghost var sent, current, replies := keyboard.sent, keyboard.device.current, keyboard.device.replies;
      r := OnFocus(event, keyboard, t);
      ReflectsStep(layers, sent0, current0, replies0, cmds, cmd, if event.Class? then t else WriteFailed,
                   sent, current, replies, keyboard.sent, keyboard.device.current, keyboard.device.replies);
    }

    /** The control loop over a run of focus changes, one transfer outcome per change:
        classes are decided in order and the first failed write ends the loop.
        `handled` is the number of changes dealt with before that. On failure, the
        commands that reached the keyboard are those of the handled classes, plus the
        failing one unless its write failed. */
    method EventLoop(keyboard: Keyboard, events: seq<Focus>, transfers: seq<Transfer>)
      returns (r: KeyboardResult, handled: nat)
      requires keyboard.Valid()
      requires |transfers| == |events|
      modifies this, keyboard, keyboard.device
      ensures keyboard.Valid()
      ensures handled <= |events|
      ensures r.Ok? <==> handled == |events|
      ensures var cmds := Trace(old(custom), rules, Classes(events[..handled]));
        && custom == After(old(custom), rules, Classes(events[..handled]))
        && AllExist(keyboard.device.layers, cmds)
        && (r.Ok? ==>
              && keyboard.sent == old(keyboard.sent) + Frames(cmds)
              && keyboard.device.current == Settle(old(keyboard.device.current), keyboard.device.layers, cmds)
              && keyboard.device.replies == old(keyboard.device.replies) + Codes(keyboard.device.layers, cmds))
      ensures r.Err? ==>
        && events[handled].Class?
        && var cmd := Decide(custom, LayerFor(rules, events[handled].name)).command;
        && cmd.Some?
        && r == SetLayerResult(keyboard.device.layers, cmd.value, transfers[handled])
        && var reached := Trace(old(custom), rules, Classes(events[..handled]))
                          + (if transfers[handled].WriteFailed? then [] else [cmd]);
        && keyboard.sent == old(keyboard.sent) + Frames(reached)
        && keyboard.device.current == Settle(old(keyboard.device.current), keyboard.device.layers, reached)
        && keyboard.device.replies == old(keyboard.device.replies) + Codes(keyboard.device.layers, reached)
    {
      ghost var custom0 := custom;
      ghost var sent0 := keyboard.sent;
      ghost var current0 := keyboard.device.current;
      ghost var replies0 := keyboard.device.replies;
      ghost var layers := keyboard.device.layers;
      ghost var done: seq<string> := [];
      handled := 0;
      r := Ok(());
      while handled < |events|
        invariant 0 <= handled <= |events|
        invariant keyboard.Valid()
        invariant done == Classes(events[..handled])
        invariant custom == After(custom0, rules, done)
        invariant Reflects(layers, sent0, current0, replies0, Trace(custom0, rules, done),
                           keyboard.sent, keyboard.device.current, keyboard.device.replies)
        invariant AllExist(layers, Trace(custom0, rules, done))
      {
        var event := events[handled];
        ClassesSnoc(events, handled);
        var res := Handle(event, keyboard, transfers[handled], custom0, done, sent0, current0, replies0);
        if res.Err? {
          return res, handled;
        }
        done := done + if event.Class? then [event.name] else [];
        handled := handled + 1;
      }
      assert events[..handled] == events;
    }
  }
}
