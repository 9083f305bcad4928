/**
 * The tray's menu and its event handler in `main` (src-tauri/src/main.rs:18-31):
 * the menu holds one item, id "quit" labelled "Quit"; a click on a menu item
 * with id "quit" exits the application with status 0, and every other tray
 * event is ignored.
 */
module TrayEvents {
  import opened Wrappers

  const QUIT_ID: string := "quit"
  const QUIT_LABEL: string := "Quit"

  /** The tray events the handler can receive; click positions and sizes are not modelled. */
  datatype TrayEvent =
    | LeftClick
    | RightClick
    | DoubleClick
    | MenuItemClick(id: string)

  /** What the handler asks of the application. */
  datatype Action = Ignore | Exit(code: int)

  /** The `on_system_tray_event` closure. */
  function OnTrayEvent(e: TrayEvent): (a: Action)
    ensures a.Exit? <==> e == MenuItemClick(QUIT_ID)
    ensures a.Exit? ==> a == Exit(0)
  {
    if e.MenuItemClick? && e.id == QUIT_ID then Exit(0) else Ignore
  }

  /** The id is compared exactly: the item's label, or any other spelling, does nothing. */
  lemma OnlyExactQuitIdExits()
    ensures OnTrayEvent(MenuItemClick(QUIT_LABEL)) == Ignore
    ensures OnTrayEvent(MenuItemClick("QUIT")) == Ignore
    ensures OnTrayEvent(MenuItemClick("quit ")) == Ignore
    ensures OnTrayEvent(LeftClick) == Ignore
    ensures OnTrayEvent(MenuItemClick("quit")) == Exit(0)
  {
    assert QUIT_LABEL[0] != QUIT_ID[0];
    assert "QUIT"[0] != QUIT_ID[0];
    assert |"quit "| != |QUIT_ID|;
  }

  /** Handling a sequence of events: the first "quit" click ends the application. */
  function ExitCode(events: seq<TrayEvent>): (r: Option<int>)
    ensures r.Some? <==> MenuItemClick(QUIT_ID) in events
    ensures r.Some? ==> r.value == 0
  {
    if events == [] then None
    else match OnTrayEvent(events[0])
      case Exit(code) => Some(code)
      case Ignore => ExitCode(events[1..])
  }
}
