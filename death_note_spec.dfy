/** The death note as values: the entry a name points to, the insertion-ordered
    note, and what each call of the death note does to them. The class in
    DeathNoteImpl is proved to behave exactly as these functions say. */
module DeathNoteSpec {
  import opened Outcomes

  /** The cause every entry starts with. */
  const DefaultCause: string := "heart attack"
  /** Milliseconds after its creation during which an entry's cause may be written. */
  const CauseWindow: int := 40
  /** Milliseconds after its creation during which an entry's details may be written. */
  const DetailsWindow: int := 6000 + CauseWindow

  /** The two time-gated fields of an entry. */
  datatype Field = Cause | Details

  function Window(f: Field): int {
    match f
    case Cause => CauseWindow
    case Details => DetailsWindow
  }

  /** One page of the note: when the name was written, and its two fields. */
  datatype Entry = Entry(creationTime: int, cause: string, details: string) {
    function Get(f: Field): string {
      match f
      case Cause => cause
      case Details => details
    }
  }

  /** The entry that writing a name at time `now` creates. */
  function NewEntry(now: int): Entry {
    Entry(now, DefaultCause, "")
  }

  /** Field `f` of `e` may still be written at time `now`: the edge itself is inside the window. */
  predicate Writable(e: Entry, f: Field, now: int) {
    now <= e.creationTime + Window(f)
  }

  /** An entry's own write of field `f`: the new entry, and whether the write was accepted. */
  function WriteEntry(e: Entry, f: Field, v: string, now: int): (r: (Entry, bool))
    ensures r.1 == Writable(e, f, now)
    ensures r.0.creationTime == e.creationTime
    ensures r.0.Get(f) == (if r.1 then v else e.Get(f))
    ensures forall g: Field :: g != f ==> r.0.Get(g) == e.Get(g)
  {
    if now > e.creationTime + Window(f) then (e, false)
    else
      match f
      case Cause => (e.(cause := v), true)
      case Details => (e.(details := v), true)
  }

  /** Once a field has frozen it stays frozen: no later write is accepted or changes the entry. */
  lemma FreezeIsPermanent(e: Entry, f: Field, t: int, t': int, v: string)
    requires !Writable(e, f, t) && t <= t'
    ensures !Writable(e, f, t')
    ensures WriteEntry(e, f, v, t') == (e, false)
  {
  }

  /** Java's `Character.isWhitespace` on one code point. */
  predicate IsWhitespace(c: char) {
    || c == ' '
    || ('\t' <= c <= '\r')
    || ('\U{1C}' <= c <= '\U{1F}')
    || c == '\U{1680}'
    || ('\U{2000}' <= c <= '\U{200A}' && c != '\U{2007}')
    || c == '\U{2028}' || c == '\U{2029}' || c == '\U{205F}' || c == '\U{3000}'
  }

  /** `isEmpty() || isBlank()`: Java scans from the front for a non-white-space character;
      the name is blank when there is none, so every character is white space (true of ""). */
  function IsBlank(s: string): (b: bool)
    ensures b <==> forall i :: 0 <= i < |s| ==> IsWhitespace(s[i])
  {
    if s == [] then true
    else IsWhitespace(s[0]) && IsBlank(s[1..])
  }

  /** The note: names in insertion order, and the entry each name points to. */
  datatype Note = Note(keys: seq<string>, entries: map<string, Entry>)

  /** The linked-hash-map invariant: no name twice in the order, and the order lists exactly the mapped names. */
  predicate OrderOf(keys: seq<string>, names: set<string>) {
    && (forall i, j :: 0 <= i < j < |keys| ==> keys[i] != keys[j])
    && (forall k :: k in keys ==> k in names)
    && (forall k :: k in names ==> k in keys)
  }

  predicate Valid(n: Note) {
    OrderOf(n.keys, n.entries.Keys)
  }

  /** The note a fresh death note starts with. */
  const Empty: Note := Note([], map[])

  /** The most recently inserted name: the target of every cause or details write. */
  function Last(n: Note): string
    requires n.keys != []
  {
    n.keys[|n.keys| - 1]
  }

  /** `getRule`: the 1-based lookup into the rule catalog. */
  function Rule(rules: seq<string>, number: int): (r: Result<string>)
    ensures r.Thrown? <==> number < 1 || number > |rules|
    ensures r.Thrown? ==> r.exception == IllegalArgument
    ensures r.Ok? ==> r.value == rules[number - 1]
  {
    if number < 1 || number > |rules| then Thrown(IllegalArgument)
    else Ok(rules[number - 1])
  }

  /** `isNameWritten`: whether a (non-null) name has an entry. */
  predicate IsNameWritten(n: Note, name: Option<string>) {
    name.Some? && name.value in n.entries
  }

  /** `getDeathCause` (f == Cause) and `getDeathDetails` (f == Details). */
  function Read(n: Note, f: Field, name: Option<string>): (r: Result<string>)
    ensures r.Thrown? <==> !IsNameWritten(n, name)
    ensures r.Thrown? ==> r.exception == IllegalArgument
    ensures r.Ok? ==> r.value == n.entries[name.value].Get(f)
  {
    if name.None? || name.value !in n.entries then Thrown(IllegalArgument)
    else Ok(n.entries[name.value].Get(f))
  }

  /** `LinkedHashMap.put` of a new entry: a new name goes last, an existing one keeps its place. */
  function Put(n: Note, name: string, now: int): (r: Note)
    requires Valid(n)
    ensures Valid(r)
    ensures name in r.entries && r.entries[name] == NewEntry(now)
    ensures forall k :: k != name ==> (k in r.entries <==> k in n.entries)
    ensures forall k :: k != name && k in n.entries ==> r.entries[k] == n.entries[k]
    ensures name in n.entries ==> r.keys == n.keys
    ensures name !in n.entries ==> r.keys == n.keys + [name] && Last(r) == name
  {
    Note(if name in n.entries then n.keys else n.keys + [name], n.entries[name := NewEntry(now)])
  }

  /** `writeName`: the note afterwards and how the call ends. */
  function WriteName(n: Note, name: Option<string>, now: int): (r: (Note, Result<()>))
    requires Valid(n)
    ensures Valid(r.0)
    ensures r.1.Thrown? <==> name.None?
    ensures r.1.Thrown? ==> r.1.exception == NullPointer
    ensures name.None? || IsBlank(name.value) ==> r.0 == n
    ensures name.Some? && !IsBlank(name.value) ==>
      && IsNameWritten(r.0, name)
      && Read(r.0, Cause, name) == Ok(DefaultCause)
      && Read(r.0, Details, name) == Ok("")
      && r.0.entries[name.value].creationTime == now
      && r.0 == Put(n, name.value, now)
  {
    match name
    case None => (n, Thrown(NullPointer))
    case Some(s) => if IsBlank(s) then (n, Ok(())) else (Put(n, s, now), Ok(()))
  }

  /** `writeDeathCause` (f == Cause) and `writeDetails` (f == Details): they always
      write the last inserted entry, and only inside that entry's window for `f`. */
  function WriteField(n: Note, f: Field, v: Option<string>, now: int): (r: (Note, Result<bool>))
    requires Valid(n)
    ensures Valid(r.0) && r.0.keys == n.keys
    ensures r.1.Thrown? <==> n.keys == [] || v.None?
    ensures r.1.Thrown? ==> r.1.exception == IllegalState && r.0 == n
    ensures r.1.Ok? ==> r.1.value == Writable(n.entries[Last(n)], f, now)
    ensures r.1 == Ok(false) ==> r.0 == n
    ensures r.1 == Ok(true) ==> Read(r.0, f, Some(Last(n))) == Ok(v.value)
    ensures r.1.Ok? ==> r.0.entries[Last(n)] == WriteEntry(n.entries[Last(n)], f, v.value, now).0
    ensures forall k :: k in n.entries && (n.keys == [] || k != Last(n)) ==> k in r.0.entries && r.0.entries[k] == n.entries[k]
  {
    if n.keys == [] || v.None? then (n, Thrown(IllegalState))
    else
      var last := Last(n);
      var (e, ok) := WriteEntry(n.entries[last], f, v.value, now);
      if ok then (Note(n.keys, n.entries[last := e]), Ok(true)) else (n, Ok(false))
  }
}
