/** The `write` call of a process as it reaches its terminal (student-distrib/systemcalls.c,
    student-distrib/terminal.c). */
module Output {
  import opened Bytes
  import C = Console
  import FT = FileTable

  /** The terminal of the process holds what the process has written, after what was there when it started. */
  ghost predicate Follows(table: FT.FileTable, screens: C.Screens, start: C.History)
    requires C.Three(screens.terminals) && table.screen < 3 && start != []
    reads table`console, screens`terminals
  {
    screens.terminals.histories[table.screen] == C.WrittenAll(start, table.console)
  }

  /** A `write` to any descriptor but the clock prints on standard output and is refused on anything else. What a
      process prints goes to the terminal it was started on and to no other, so that its history stays what was there
      before followed by all the process wrote. On the active terminal that always leaves the terminals intact; on one
      in the background exactly when the output leaves it and the active one undisturbed. */
  method Write(table: FT.FileTable, screens: C.Screens, fd: int, buf: seq<Byte>, nbytes: int, ghost start: C.History)
    returns (r: int)
    requires table.Valid() && screens.Valid() && table.screen < 3 && NUL in buf
    requires 0 <= fd && fd in table.handles ==> table.handles[fd] != FT.Clock
    requires start != [] && Follows(table, screens, start)
    modifies table`console, screens, screens.screens[table.screen], screens.video
    ensures table.Valid() && screens.screenNum == old(screens.screenNum) && C.Three(screens.terminals)
    ensures var prints := nbytes >= 0 && 0 <= fd && fd in table.handles && table.handles[fd] == FT.Screen(table.screen);
      && r == (if prints then nbytes else -1)
      && table.console == (if prints then old(table.console) + CString(buf) else old(table.console))
      && (screens.Valid() <==>
            (!prints || table.screen == screens.screenNum
             || C.Undisturbed(old(screens.CursorOf(screens.screenNum)), old(screens.CursorOf(table.screen)),
                              CString(buf))))
    ensures Follows(table, screens, start)
    ensures forall k :: 0 <= k < 3 && k != table.screen ==>
      screens.terminals.histories[k] == old(screens.terminals.histories[k])
    ensures table.screen == screens.screenNum
         && old(C.Displays(screens.video[..], screens.terminals.histories[table.screen]))
         && C.ShortLines(screens.terminals.histories[table.screen])
      ==> C.Displays(screens.video[..], screens.terminals.histories[table.screen])
  {
    hide C.Stands, C.Displays, C.ShortLines, C.WrittenAll, C.Written, C.KeepsUp, C.Undisturbed, CString;
    C.WrittenTogether(start, table.console, CString(buf));
    r := table.Write(fd, buf, nbytes);
    if 0 <= fd < FT.TABLE_SIZE && nbytes >= 0 && table.slots[fd].flags == 1 && table.slots[fd].ops == FT.StdoutOps {
      r := screens.TerminalWrite(table.slots[fd].pos, buf, nbytes);
    }
  }
}
