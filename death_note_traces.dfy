/** Sequences of calls on one death note, and what holds along every such sequence. */
module DeathNoteTraces {
  import opened Outcomes
  import opened DeathNoteSpec

  /** A call that may change the note, with the clock reading at the moment of the call.
      WriteFieldCall(Cause, ..) is `writeDeathCause`, WriteFieldCall(Details, ..) is `writeDetails`. */
  datatype Op =
    | WriteNameCall(name: Option<string>, at: int)
    | WriteFieldCall(field: Field, payload: Option<string>, at: int)

  /** The note after one call; a call that throws leaves it as it was. */
  function Apply(n: Note, op: Op): (r: Note)
    requires Valid(n)
    ensures Valid(r)
    ensures n.keys <= r.keys
  {
    match op
    case WriteNameCall(name, at) => WriteName(n, name, at).0
    case WriteFieldCall(f, v, at) => WriteField(n, f, v, at).0
  }

  /** The note after a whole sequence of calls. */
  function Run(n: Note, ops: seq<Op>): (r: Note)
    requires Valid(n)
    ensures Valid(r)
    decreases |ops|
  {
    if ops == [] then n else Run(Apply(n, ops[0]), ops[1..])
  }

  /** Names are never removed and the insertion order is never rearranged:
      the order before the calls is a prefix of the order after them. */
  lemma {:induction false} RunKeepsNames(n: Note, ops: seq<Op>)
    requires Valid(n)
    ensures n.keys <= Run(n, ops).keys
    ensures forall k :: k in n.entries ==> k in Run(n, ops).entries
    decreases |ops|
  {
    if ops != [] {
      var m := Apply(n, ops[0]);
      RunKeepsNames(m, ops[1..]);
      assert forall k :: k in n.entries ==> k in n.keys && k in m.keys && k in m.entries;
    }
  }

  /** Every name in the note was accepted by `writeName`, so none is blank. */
  predicate NoBlankNames(n: Note) {
    forall k :: k in n.entries ==> !IsBlank(k)
  }

  /** Whatever the calls, a note without blank names never gets one (in particular one
      that started empty). */
  lemma {:induction false} RunNeverWritesBlankNames(n: Note, ops: seq<Op>)
    requires Valid(n) && NoBlankNames(n)
    ensures NoBlankNames(Run(n, ops))
    decreases |ops|
  {
    if ops != [] {
      var m := Apply(n, ops[0]);
      assert NoBlankNames(m);
      RunNeverWritesBlankNames(m, ops[1..]);
    }
  }

  /** The call writes `x` again, which resets its entry. */
  predicate Rewrites(op: Op, x: string) {
    op.WriteNameCall? && op.name == Some(x)
  }

  /** One call made no earlier than `t` leaves a field that is frozen at `t` as it was,
      unless the call writes the name again. */
  lemma ApplyKeepsFrozen(n: Note, op: Op, x: string, f: Field, t: int)
    requires Valid(n) && x in n.entries && !Writable(n.entries[x], f, t)
    requires op.at >= t && !Rewrites(op, x)
    ensures x in Apply(n, op).entries
    ensures Apply(n, op).entries[x].creationTime == n.entries[x].creationTime
    ensures Apply(n, op).entries[x].Get(f) == n.entries[x].Get(f)
  {
    match op
    case WriteNameCall(name, at) =>
    case WriteFieldCall(g, v, at) =>
      if n.keys != [] && x == Last(n) && g == f {
        FreezeIsPermanent(n.entries[x], f, t, at, if v.Some? then v.value else "");
      }
  }

  /** Freezing is permanent: once field `f` of `x` can no longer be written at time `t`,
      no sequence of later calls changes it, unless `x` is written as a name again. */
  lemma {:induction false} FrozenStaysFrozen(n: Note, ops: seq<Op>, x: string, f: Field, t: int)
    requires Valid(n) && x in n.entries && !Writable(n.entries[x], f, t)
    requires forall i :: 0 <= i < |ops| ==> ops[i].at >= t && !Rewrites(ops[i], x)
    ensures x in Run(n, ops).entries
    ensures Run(n, ops).entries[x].creationTime == n.entries[x].creationTime
    ensures Run(n, ops).entries[x].Get(f) == n.entries[x].Get(f)
    decreases |ops|
  {
    if ops != [] {
      ApplyKeepsFrozen(n, ops[0], x, f, t);
      var m := Apply(n, ops[0]);
      assert forall i :: 0 <= i < |ops[1..]| ==> ops[1..][i] == ops[i + 1];
      FrozenStaysFrozen(m, ops[1..], x, f, t);
    }
  }
}
