/** The shortcut hook (src/hooks/useKeyboardShortcuts.ts): on each keydown the
    shortcuts are tried in order and the first whose key and modifiers match
    fires, after `preventDefault`. */
module UseKeyboardShortcuts {
  import opened Wrappers
  import opened Ascii

  datatype KeyEvent = KeyEvent(key: string, ctrlKey: bool, shiftKey: bool, altKey: bool)

  /** A shortcut; a modifier left undefined is `None`. The callback is kept
      abstract as a value of type `A`. */
  datatype Shortcut<A> = Shortcut(key: string, ctrl: Option<bool>, shift: Option<bool>,
                                  alt: Option<bool>, callback: A)

  /** `!!flag`: an undefined modifier counts as false. */
  function Flag(f: Option<bool>): bool
  {
    f.Some? && f.value
  }

  /** The matching condition of the loop body. */
  predicate Matches<A>(shortcut: Shortcut<A>, e: KeyEvent)
  {
    && Lower(e.key) == Lower(shortcut.key)
    && e.ctrlKey == Flag(shortcut.ctrl)
    && e.shiftKey == Flag(shortcut.shift)
    && e.altKey == Flag(shortcut.alt)
  }

  /** The position of the first matching shortcut, if any. */
  function FirstMatch<A>(shortcuts: seq<Shortcut<A>>, e: KeyEvent): (r: Option<nat>)
    ensures r.Some? ==> r.value < |shortcuts| && Matches(shortcuts[r.value], e) &&
                        forall j :: 0 <= j < r.value ==> !Matches(shortcuts[j], e)
    ensures r.None? <==> forall j :: 0 <= j < |shortcuts| ==> !Matches(shortcuts[j], e)
  {
    if |shortcuts| == 0 then None
    else if Matches(shortcuts[0], e) then Some(0)
    else
      match FirstMatch(shortcuts[1..], e)
      case None => None
      case Some(k) => Some(k + 1)
  }

  /** `handleKeyDown`: `fired` is the index of the shortcut whose callback ran
      and `prevented` whether `preventDefault` was called. */
  method HandleKeyDown<A>(shortcuts: seq<Shortcut<A>>, e: KeyEvent) returns (fired: Option<nat>, prevented: bool)
    ensures fired == FirstMatch(shortcuts, e)
    ensures prevented <==> fired.Some?
  {
    var i := 0;
    while i < |shortcuts|
      invariant 0 <= i <= |shortcuts|
      invariant forall j :: 0 <= j < i ==> !Matches(shortcuts[j], e)
    {
      if Matches(shortcuts[i], e) {
        prevented := true;
        fired := Some(i);
        return;
      }
      i := i + 1;
    }
    fired := None;
    prevented := false;
  }

  /** A callback runs exactly when some shortcut matches, and a later matching
      shortcut never runs. */
  lemma FirstMatchWins<A>(shortcuts: seq<Shortcut<A>>, e: KeyEvent, i: nat)
    requires i < |shortcuts| && Matches(shortcuts[i], e)
    ensures FirstMatch(shortcuts, e).Some? && FirstMatch(shortcuts, e).value <= i
  {
  }

  /** When at most one shortcut can match, the one that fires does not depend
      on the order of the list. */
  lemma UniqueMatchFires<A>(shortcuts: seq<Shortcut<A>>, e: KeyEvent, i: nat)
    requires i < |shortcuts| && Matches(shortcuts[i], e)
    requires forall j :: 0 <= j < |shortcuts| && j != i ==> !Matches(shortcuts[j], e)
    ensures FirstMatch(shortcuts, e) == Some(i)
  {
  }
}
