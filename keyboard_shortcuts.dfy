/** The application's shortcut table (src/components/KeyboardShortcuts.tsx),
    with each callback replaced by a tag for what it does. */
module KeyboardShortcuts {
  import opened Wrappers
  import opened Ascii
  import opened UseKeyboardShortcuts

  datatype Action = OpenSearch | Navigate(path: string) | DoNothing

  const Table: seq<Shortcut<Action>> := [
    Shortcut("k", Some(true), None, None, OpenSearch),
    Shortcut("/", Some(false), None, None, OpenSearch),
    Shortcut("g", Some(true), None, None, Navigate("/")),
    Shortcut("d", Some(true), None, None, Navigate("/discover")),
    Shortcut("l", Some(true), None, None, Navigate("/library")),
    Shortcut("Escape", None, None, None, DoNothing)
  ]

  /** What a keydown does under the table: the action of the first match. */
  function Dispatch(e: KeyEvent): (r: Option<Action>)
    ensures r.Some? <==> exists i :: 0 <= i < |Table| && Matches(Table[i], e)
  {
    match FirstMatch(Table, e)
    case None => None
    case Some(i) => Some(Table[i].callback)
  }

  /** The lowercased keys of the table, in order. */
  lemma TableKeys()
    ensures Lower(Table[0].key) == "k" && Lower(Table[1].key) == "/"
    ensures Lower(Table[2].key) == "g" && Lower(Table[3].key) == "d"
    ensures Lower(Table[4].key) == "l" && Lower(Table[5].key) == "escape"
  {
    assert Lower("Escape")[0] == 'e';
    assert Lower("Escape") == "escape";
  }

  /** No two entries agree on lowercased key and all three modifiers, so an
      event matches at most one entry. */
  lemma AtMostOneEntryMatches(e: KeyEvent, i: nat, j: nat)
    requires i < |Table| && j < |Table|
    requires Matches(Table[i], e) && Matches(Table[j], e)
    ensures i == j
  {
    TableKeys();
  }

  /** The action an event gets when it matches entry `i`. */
  lemma DispatchEntry(e: KeyEvent, i: nat)
    requires i < |Table| && Matches(Table[i], e)
    ensures Dispatch(e) == Some(Table[i].callback)
  {
    forall j | 0 <= j < |Table| && j != i ensures !Matches(Table[j], e) {
      if Matches(Table[j], e) {
        AtMostOneEntryMatches(e, i, j);
      }
    }
    UniqueMatchFires(Table, e, i);
  }

  /** Ctrl+K, in either case, and an unmodified "/" open the search. */
  lemma SearchShortcuts(e: KeyEvent)
    requires !e.shiftKey && !e.altKey
    ensures Lower(e.key) == "k" && e.ctrlKey ==> Dispatch(e) == Some(OpenSearch)
    ensures e.key == "/" && !e.ctrlKey ==> Dispatch(e) == Some(OpenSearch)
  {
    TableKeys();
    if Lower(e.key) == "k" && e.ctrlKey {
      DispatchEntry(e, 0);
    }
    if e.key == "/" && !e.ctrlKey {
      assert Lower(e.key) == "/";
      DispatchEntry(e, 1);
    }
  }

  /** Ctrl+G, Ctrl+D and Ctrl+L go to the home, discover and library pages. */
  lemma NavigationShortcuts(e: KeyEvent)
    requires e.ctrlKey && !e.shiftKey && !e.altKey
    ensures Lower(e.key) == "g" ==> Dispatch(e) == Some(Navigate("/"))
    ensures Lower(e.key) == "d" ==> Dispatch(e) == Some(Navigate("/discover"))
    ensures Lower(e.key) == "l" ==> Dispatch(e) == Some(Navigate("/library"))
  {
    TableKeys();
    if Lower(e.key) == "g" { DispatchEntry(e, 2); }
    if Lower(e.key) == "d" { DispatchEntry(e, 3); }
    if Lower(e.key) == "l" { DispatchEntry(e, 4); }
  }

  /** Escape without modifiers is claimed by an entry that does nothing. */
  lemma EscapeDoesNothing(e: KeyEvent)
    requires e.key == "Escape" && !e.ctrlKey && !e.shiftKey && !e.altKey
    ensures Dispatch(e) == Some(DoNothing)
  {
    TableKeys();
    DispatchEntry(e, 5);
  }

  /** With Shift or Alt held nothing matches: every entry leaves them undefined. */
  lemma ShiftOrAltMatchesNothing(e: KeyEvent)
    requires e.shiftKey || e.altKey
    ensures Dispatch(e) == None
  {
  }
}
