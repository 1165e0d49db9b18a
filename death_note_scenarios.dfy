/** The JUnit scenarios of the death note, with the clock readings each one relies on
    made explicit ("immediately" is inside the window, a sleep is past it). They are
    stated on the functions of DeathNoteSpec, which the class is proved to follow, except
    for the empty-note one, which drives the class itself. */
module DeathNoteScenarios {
  import opened Outcomes
  import opened DeathNoteSpec
  import opened DeathNoteImpl

  /** Indices 0, -5 and 14 name no rule of a catalog with fewer than 14 rules. */
  lemma RuleShouldNotExist(rules: seq<string>)
    requires |rules| < 14
    ensures Rule(rules, 0) == Thrown(IllegalArgument)
    ensures Rule(rules, -5) == Thrown(IllegalArgument)
    ensures Rule(rules, 14) == Thrown(IllegalArgument)
  {
  }

  /** "Mario" is written; null is refused; "" and "  " are silently not written. */
  lemma ShouldWriteName(now: int)
    ensures !IsNameWritten(Empty, Some("Mario"))
    ensures var n := WriteName(Empty, Some("Mario"), now).0;
      && IsNameWritten(n, Some("Mario"))
      && WriteName(n, None, now) == (n, Thrown(NullPointer))
      && !IsNameWritten(WriteName(n, Some(""), now).0, Some(""))
      && !IsNameWritten(WriteName(n, Some("  "), now).0, Some("  "))
  {
    assert !IsWhitespace("Mario"[0]);
    assert IsBlank("  ");
  }

  /** On an empty note `writeDeathCause` throws IllegalState, with or without a payload. */
  method ShouldThrowWhenWritingCauseOfDeath(now: int) returns (causeNull: Result<bool>, cause: Result<bool>)
    ensures causeNull == cause == Thrown(IllegalState)
  {
    var note := new DeathNote();
    causeNull := note.WriteDeathCause(None, now);
    cause := note.WriteDeathCause(Some("fake cause"), now);
  }

  /** On an empty note `writeDetails` throws IllegalState, with or without a payload. */
  method ShouldThrowWhenWritingDetailsOfDeath(now: int) returns (detailsNull: Result<bool>, details: Result<bool>)
    ensures detailsNull == details == Thrown(IllegalState)
  {
    var note := new DeathNote();
    detailsNull := note.WriteDetails(None, now);
    details := note.WriteDetails(Some("fake cause"), now);
  }

  /** Mario's cause is written in time; Lucia is written next, and a cause write 100 ms
      later targets Lucia and is refused. Mario keeps "karting accident", Lucia the default. */
  lemma CauseOfDeathBecomesUnmodifiable(t0: int, t1: int, t2: int, t3: int)
    requires t0 <= t1 <= t0 + CauseWindow && t1 <= t2 && t2 + 100 <= t3
    ensures var mario := WriteName(Empty, Some("Mario"), t0).0;
      var (written, first) := WriteField(mario, Cause, Some("karting accident"), t1);
      var lucia := WriteName(written, Some("Lucia"), t2).0;
      var (after, late) := WriteField(lucia, Cause, Some("karting accident"), t3);
      && first == Ok(true) && late == Ok(false)
      && Read(after, Cause, Some("Mario")) == Ok("karting accident")
      && Read(after, Cause, Some("Lucia")) == Ok(DefaultCause)
  {
    assert !IsWhitespace("Mario"[0]) && !IsWhitespace("Lucia"[0]);
  }

  /** The same for details, whose window is 6040 ms: a write 6100 ms after Lucia is refused. */
  lemma DetailsOfDeathBecomeUnmodifiable(t0: int, t1: int, t2: int, t3: int)
    requires t0 <= t1 <= t0 + DetailsWindow && t1 <= t2 && t2 + 6100 <= t3
    ensures var mario := WriteName(Empty, Some("Mario"), t0).0;
      var (written, first) := WriteField(mario, Details, Some("ran for too long"), t1);
      var lucia := WriteName(written, Some("Lucia"), t2).0;
      var (after, late) := WriteField(lucia, Details, Some("ran for too long"), t3);
      && first == Ok(true) && late == Ok(false)
      && Read(after, Details, Some("Mario")) == Ok("ran for too long")
      && Read(after, Details, Some("Lucia")) == Ok("")
  {
    assert !IsWhitespace("Mario"[0]) && !IsWhitespace("Lucia"[0]);
  }
}
