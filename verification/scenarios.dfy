/** Two concrete runs of the rotator: two entries `A` and `B`, no availability
    cycling, a console clear every second successful update. */
module Scenarios {
  import opened Json
  import opened Remote
  import opened Cursor
  import opened Scheduler

  const EntryA: StatusEntry := StatusEntry(Str("A"), Str("fire"))
  const EntryB: StatusEntry := StatusEntry(Str("B"), Str("snowflake"))
  const TwoEntries: Config := Config([EntryA, EntryB], false, [], true, 2)

  /** Three successful ticks submit A, B, A; only the second, which brings the
      index to 2, clears the console. */
  lemma ThreeSuccesses()
    ensures var ts := Run(TwoEntries, 0, [Responded(200), Responded(200), Responded(200)]);
      && ts[0].index == 1 && !ts[0].cleared
      && ts[1].index == 2 && ts[1].cleared
      && ts[2].index == 3 && !ts[2].cleared
      && AppliedEntries(TwoEntries, 0, [Responded(200), Responded(200), Responded(200)]) == [EntryA, EntryB, EntryA]
  {
    var rs := [Responded(200), Responded(200), Responded(200)];
    NoEntrySkipped(TwoEntries, 0, rs);
    assert Successes(rs) == 3;
    var c := Cycle(TwoEntries, 0, 3);
    assert c[0] == EntryA && c[1] == EntryB && c[2] == EntryA;
  }

  /** When the second update throws, the index stays at 1 and the third tick
      submits B again, reaching index 2 and clearing the console then. */
  lemma FailureThenRetry()
    ensures var rs := [Responded(200), Threw, Responded(200)];
      var ts := Run(TwoEntries, 0, rs);
      && ts[1].outcome == Rejected && ts[1].index == 1 && !ts[1].cleared
      && ts[2].outcome == Applied && ts[2].index == 2 && ts[2].cleared
      && ts[2].request == ts[1].request
      && AppliedEntries(TwoEntries, 0, rs) == [EntryA, EntryB]
  {
    var rs := [Responded(200), Threw, Responded(200)];
    FailureRetriesSameRequest(TwoEntries, 0, rs, 1);
    NoEntrySkipped(TwoEntries, 0, rs);
    assert Successes(rs) == 2;
    var c := Cycle(TwoEntries, 0, 2);
    assert c[0] == EntryA && c[1] == EntryB;
  }
}
