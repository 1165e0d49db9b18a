# Death note

A Dafny model of `DeathNoteImplementation`, the death note of the `82-tdd-deathnote`
exercise. The note is an insertion-ordered map from names to entries. Each entry records
when its name was written, a cause of death (initially "heart attack") and details
(initially empty). `writeDeathCause` and `writeDetails` always act on the most recently
inserted name. Each field is writable only inside a window counted from the entry's
creation: 40 ms for the cause and 6040 ms for the details, edge included. A refused write
returns `false` and changes nothing. `getRule` looks up a rule by its 1-based number.

Layout:

- `outcomes.dfy` (module `Outcomes`): Java's `null` as `Option`, and the three exception
  kinds the class throws (`NullPointer`, `IllegalState`, `IllegalArgument`) as `Result`.
- `death_note_spec.dfy` (module `DeathNoteSpec`): the note as a value. `Note` holds the
  ordered names (`keys`) and the map to `Entry` values. There is one function per call
  of the class; it gives the new note and what the call returns or throws.
- `death_note.dfy` (module `DeathNoteImpl`): the class as Java keeps it. `Item` stands for
  `DeathNoteItem`: a fixed `creationTime` and two fields that its write methods reassign
  in place. `DeathNote` keeps a `keys` sequence and an `items` map of `Item` objects.
  A ghost `Contents` holds the note as a value. Each method is proved to update
  `Contents` exactly as the matching function of `DeathNoteSpec` says. `Valid()` ties
  the objects to `Contents` and shows that no two names share an entry object.
- `death_note_traces.dfy` (module `DeathNoteTraces`): any sequence of writing calls.
  Proved properties: the map invariant holds throughout; names are never removed or
  reordered; blank names never get in; a frozen field stays frozen until its name is written again.
- `death_note_scenarios.dfy` (module `DeathNoteScenarios`): the JUnit scenarios, with the
  clock readings they rely on written as preconditions.

The clock (`System.currentTimeMillis()`) is an explicit `now` parameter of every call that
reads it. Every public `String` parameter is an `Option<string>`, where `None` is `null`.

`getDeathCause` and `getDeathDetails` throw `IllegalArgumentException` for a `null` or
unknown name (`DeathNoteImplementation.java:118`, `:130`). `writeDeathCause` and
`writeDetails` throw `IllegalStateException` both for an empty note and for a `null`
payload (`:94-95`, `:106-107`). Re-adding a name
replaces its entry but keeps its place in the insertion order
(`LinkedHashMap.put`). Writes are therefore routed to the last *newly* inserted name,
which need not be the last name passed to `writeName`.

`TestDeathNote.java:120` checks that "Mario" still has the default cause after the
refused write. In the implementation, the refused write targets "Lucia", and "Mario" keeps
the cause written at line 115. `CauseOfDeathBecomesUnmodifiable` proves both facts: Mario's cause is "karting
accident", and Lucia's is the default.

## Model

| member | source | states |
|---|---|---|
| `DeathNoteSpec.WriteEntry` | 82-tdd-deathnote/src/main/java/it/unibo/deathnote/impl/DeathNoteImplementation.java:35-57 | an entry accepts a write of a field iff `now <= creationTime + window` (40 ms for the cause, 6040 ms for the details); if accepted, that field becomes the new value, otherwise it keeps its value; the creation time and the other field never change |
| `DeathNoteSpec.FreezeIsPermanent` | 82-tdd-deathnote/src/main/java/it/unibo/deathnote/impl/DeathNoteImplementation.java:25-57 | a field refused at time `t` is refused at every later time, and the refused write leaves the entry unchanged, because the creation time is final |
| `DeathNoteSpec.Rule` | 82-tdd-deathnote/src/main/java/it/unibo/deathnote/impl/DeathNoteImplementation.java:64-70 | `getRule(n)` throws IllegalArgument exactly when `n < 1` or `n` exceeds the catalog size, and otherwise returns the rule at position `n - 1` |
| `DeathNoteSpec.Read` | 82-tdd-deathnote/src/main/java/it/unibo/deathnote/impl/DeathNoteImplementation.java:117-135 | `getDeathCause`/`getDeathDetails` throw IllegalArgument exactly when the name is null or not written, and otherwise return that entry's stored field |
| `DeathNoteSpec.Put` | 82-tdd-deathnote/src/main/java/it/unibo/deathnote/impl/DeathNoteImplementation.java:86 | after `put`, the name maps to a fresh entry (creation time `now`, cause "heart attack", details ""); every other name keeps its entry; a new name is appended last, an existing one keeps its position; the map invariant is preserved |
| `DeathNoteSpec.IsBlank` | 82-tdd-deathnote/src/main/java/it/unibo/deathnote/impl/DeathNoteImplementation.java:82 | true exactly when every character is a Java white-space code point (`Character.isWhitespace`), and so true of "" |
| `DeathNoteSpec.WriteName` | 82-tdd-deathnote/src/main/java/it/unibo/deathnote/impl/DeathNoteImplementation.java:77-87 | `writeName(null)` throws NullPointer and changes nothing; an empty or all-whitespace name changes nothing; any other name is then written with the default cause, empty details and creation time `now` |
| `DeathNoteSpec.WriteField` | 82-tdd-deathnote/src/main/java/it/unibo/deathnote/impl/DeathNoteImplementation.java:93-111 | `writeDeathCause`/`writeDetails` throw IllegalState exactly when the note is empty or the payload is null, leaving the note unchanged; otherwise they return whether the last entry's window is still open; on `true` that field of the last entry now reads back as the payload; on `false` the note is unchanged; every other entry is untouched |
| `DeathNoteTraces.Apply` | 82-tdd-deathnote/src/main/java/it/unibo/deathnote/impl/DeathNoteImplementation.java:77-111 | a single writing call keeps the map invariant and only ever extends the insertion order |
| `DeathNoteTraces.Run` | 82-tdd-deathnote/src/main/java/it/unibo/deathnote/impl/DeathNoteImplementation.java:12-19 | the ordered-keys/map invariant of the `LinkedHashMap` holds after any sequence of calls |
| `DeathNoteTraces.RunKeepsNames` | 82-tdd-deathnote/src/main/java/it/unibo/deathnote/impl/DeathNoteImplementation.java:77-111 | no sequence of calls removes a name, and the insertion order before it is a prefix of the order after it |
| `DeathNoteTraces.RunNeverWritesBlankNames` | 82-tdd-deathnote/src/main/java/it/unibo/deathnote/impl/DeathNoteImplementation.java:82-86 | no sequence of calls brings an empty or all-whitespace name into a note that has none |
| `DeathNoteTraces.ApplyKeepsFrozen` | 82-tdd-deathnote/src/main/java/it/unibo/deathnote/impl/DeathNoteImplementation.java:93-111 | a call made at or after a time when a field of `x` is frozen leaves that field and the creation time of `x` as they were, unless it writes `x` again |
| `DeathNoteTraces.FrozenStaysFrozen` | 82-tdd-deathnote/src/main/java/it/unibo/deathnote/impl/DeathNoteImplementation.java:25-57 | once a field of `x` is frozen at time `t`, every later sequence of calls that does not write `x` again leaves that field unchanged |
| `DeathNoteImpl.Item.constructor` | 82-tdd-deathnote/src/main/java/it/unibo/deathnote/impl/DeathNoteImplementation.java:29-33 | a new item records `now` as its creation time, "heart attack" as its cause and "" as its details |
| `DeathNoteImpl.Item.WriteCause` | 82-tdd-deathnote/src/main/java/it/unibo/deathnote/impl/DeathNoteImplementation.java:35-45 | reassigns the item's cause exactly as `WriteEntry` for the cause window says, and returns whether it did |
| `DeathNoteImpl.Item.WriteDetails` | 82-tdd-deathnote/src/main/java/it/unibo/deathnote/impl/DeathNoteImplementation.java:47-57 | reassigns the item's details exactly as `WriteEntry` for the details window says, and returns whether it did |
| `DeathNoteImpl.DeathNote.constructor` | 82-tdd-deathnote/src/main/java/it/unibo/deathnote/impl/DeathNoteImplementation.java:17-19 | a new death note is valid and empty |
| `DeathNoteImpl.DeathNote.WriteName` | 82-tdd-deathnote/src/main/java/it/unibo/deathnote/impl/DeathNoteImplementation.java:77-87 | keeps the invariant and changes the note, and throws, exactly as `DeathNoteSpec.WriteName` |
| `DeathNoteImpl.DeathNote.Put` | 82-tdd-deathnote/src/main/java/it/unibo/deathnote/impl/DeathNoteImplementation.java:86 | inserts a newly allocated item under the name exactly as `DeathNoteSpec.Put`, keeping every name's item its own |
| `DeathNoteImpl.DeathNote.WriteDeathCause` | 82-tdd-deathnote/src/main/java/it/unibo/deathnote/impl/DeathNoteImplementation.java:93-99 | writes the last entry's item in place and returns or throws exactly as `DeathNoteSpec.WriteField` for the cause |
| `DeathNoteImpl.DeathNote.WriteDetails` | 82-tdd-deathnote/src/main/java/it/unibo/deathnote/impl/DeathNoteImplementation.java:105-111 | writes the last entry's item in place and returns or throws exactly as `DeathNoteSpec.WriteField` for the details |
| `DeathNoteImpl.DeathNote.GetDeathCause` | 82-tdd-deathnote/src/main/java/it/unibo/deathnote/impl/DeathNoteImplementation.java:117-123 | returns the stored cause or throws, as `DeathNoteSpec.Read`, without changing anything |
| `DeathNoteImpl.DeathNote.GetDeathDetails` | 82-tdd-deathnote/src/main/java/it/unibo/deathnote/impl/DeathNoteImplementation.java:129-135 | returns the stored details or throws, as `DeathNoteSpec.Read`, without changing anything |
| `DeathNoteImpl.DeathNote.IsNameWritten` | 82-tdd-deathnote/src/main/java/it/unibo/deathnote/impl/DeathNoteImplementation.java:141-143 | true exactly when the name is non-null and in the insertion order |
| `DeathNoteScenarios.RuleShouldNotExist` | 82-tdd-deathnote/src/test/java/it/unibo/deathnote/TestDeathNote.java:33-44 | rule numbers 0, -5 and 14 throw IllegalArgument for any catalog of fewer than 14 rules |
| `DeathNoteScenarios.ShouldWriteName` | 82-tdd-deathnote/src/test/java/it/unibo/deathnote/TestDeathNote.java:61-78 | "Mario" is not written before and is written after `writeName`; `null` throws NullPointer; "" and "  " are not written |
| `DeathNoteScenarios.ShouldThrowWhenWritingCauseOfDeath` | 82-tdd-deathnote/src/test/java/it/unibo/deathnote/TestDeathNote.java:83-92 | on a new death note, `writeDeathCause` throws IllegalState, with a null payload and with a real one |
| `DeathNoteScenarios.ShouldThrowWhenWritingDetailsOfDeath` | 82-tdd-deathnote/src/test/java/it/unibo/deathnote/TestDeathNote.java:127-135 | on a new death note, `writeDetails` throws IllegalState, with a null payload and with a real one |
| `DeathNoteScenarios.CauseOfDeathBecomesUnmodifiable` | 82-tdd-deathnote/src/test/java/it/unibo/deathnote/TestDeathNote.java:109-121 | a cause written immediately is accepted; after "Lucia" is written and 100 ms pass, the write is refused; Mario keeps "karting accident" and Lucia keeps "heart attack" |
| `DeathNoteScenarios.DetailsOfDeathBecomeUnmodifiable` | 82-tdd-deathnote/src/test/java/it/unibo/deathnote/TestDeathNote.java:146-161 | the same for details: after "Lucia" is written and 6100 ms pass, the details write is refused and Lucia's details stay "" |

## Left out

- The clock: `System.currentTimeMillis()` is replaced by the `now` parameter. `Thread.sleep` in the tests becomes a precondition on the clock readings.
- `DeathNoteSpec.WriteEntry`: `creationTime + window` is computed on unbounded integers. The 64-bit `long` overflow for creation times near `Long.MAX_VALUE` is not modelled; wall-clock milliseconds never get there.
- Exception messages are not modelled, only which exception is thrown.
- The rule catalog `DeathNote.RULES` is declared in the `DeathNote` interface, which is not part of this model. `Rule` takes the catalog as a parameter. The test that every rule is non-blank (`TestDeathNote.java:49-56`) is not modelled.
- Java strings are UTF-16. The model uses sequences of Unicode scalar values. `isBlank` is `Character.isWhitespace` on every character, listed explicitly for the Basic Multilingual Plane.
- Thread safety: the class has no locking, and the model is sequential.
