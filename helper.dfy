/**
 * The running helper: the address table shared by the reload watcher and the
 * key listener, and the listener's set of held modifiers. One thread of control;
 * the mutex around the table is not modelled.
 */
module Helper {
  import opened Wrappers
  import opened AddressBook
  import opened Notification
  import opened Hotkey

  class AddressHelper {
    /** The table built from the address file, replaced whole on reload. */
    var table: Table
    /** The modifiers the listener holds; only `MetaLeft` is ever inserted. */
    var modifiers: set<Key>

    ghost predicate Valid()
      reads this
    {
      Tracked(modifiers)
    }

    /** Start-up: build the table from the parsed records; no key is held yet. */
    constructor (records: seq<MemoAddress>)
      ensures Valid()
      ensures table == Dict(records) && table.Keys == KeysOf(records)
      ensures modifiers == {}
    {
      var built := Build(records);
      table := built;
      modifiers := {};
    }

    /**
     * `watch_and_reload` on a modification event: the table becomes exactly
     * the one built from the new records, so no old entry survives unless the
     * new list produces it again; the held modifiers are untouched.
     */
    method Reload(records: seq<MemoAddress>)
      requires Valid()
      modifies this`table
      ensures Valid()
      ensures table == Dict(records) && table.Keys == KeysOf(records)
      ensures modifiers == old(modifiers)
    {
      var built := Build(records);
      table := built;
    }

    /**
     * The `listen` callback for one event. `capture` is what text capture
     * returns if asked; it is asked only when J fires. Returns the
     * notification shown, if any.
     */
    method HandleEvent(e: Event, capture: Result<string>) returns (note: Option<Note>)
      requires Valid()
      modifies this`modifiers
      ensures Valid()
      ensures modifiers == Step(old(modifiers), e)
      ensures table == old(table)
      ensures note.Some? ==> Fires(old(modifiers), e)
      ensures note == if Fires(old(modifiers), e) then Present(capture, table) else None
    {
      note := None;
      match e
      case KeyPress(key) =>
        if key == MetaLeft || key == MetaRight {
          modifiers := modifiers + {MetaLeft};
        } else if key == KeyJ {
          if MetaLeft in modifiers {
            match capture
            case Ok(text) =>
              var showText := ShowText(text);
              var lookup := GetAddressLabel(text, table);
              if lookup.Ok? {
                note := Some(Note(showText, lookup.value));
              } else {
                note := Some(Note(showText, AddressNotFound));
              }
            case Err(_) =>
          }
        }
      case KeyRelease(key) =>
        if key == MetaLeft || key == MetaRight {
          modifiers := modifiers - {MetaLeft};
        }
      case OtherEvent =>
    }
  }
}
