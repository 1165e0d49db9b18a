/** The death note as the Java class keeps it: a linked hash map from names to
    mutable entry objects, whose cause and details are reassigned in place.
    Every method is proved to do what the matching function of DeathNoteSpec says. */
module DeathNoteImpl {
  import opened Outcomes
  import opened DeathNoteSpec

  /** `DeathNoteItem`: the creation time is fixed, the two fields are reassigned by the writes. */
  class Item {
    const creationTime: int
    var cause: string
    var details: string

    /** The entry this object currently holds. */
    function View(): Entry
      reads this
    {
      Entry(creationTime, cause, details)
    }

    constructor (now: int)
      ensures View() == NewEntry(now)
    {
      creationTime := now;
      cause := DefaultCause;
      details := "";
    }

    /** `writeCause`: refused once `now` is strictly past the cause window. */
    method WriteCause(c: string, now: int) returns (ok: bool)
      modifies this
      ensures (View(), ok) == WriteEntry(old(View()), Cause, c, now)
    {
      if now > creationTime + CauseWindow {
        return false;
      }
      cause := c;
      return true;
    }

    /** `writeDetails`: refused once `now` is strictly past the details window. */
    method WriteDetails(d: string, now: int) returns (ok: bool)
      modifies this
      ensures (View(), ok) == WriteEntry(old(View()), Details, d, now)
    {
      if now > creationTime + DetailsWindow {
        return false;
      }
      details := d;
      return true;
    }
  }

  /** Every name owns its own entry object. */
  ghost predicate Injective(items: map<string, Item>) {
    forall a, b :: a in items && b in items && a != b ==> items[a] != items[b]
  }

  /** Mapping a name to an object no other name owns keeps the ownership one to one. */
  lemma InsertKeepsInjective(items: map<string, Item>, name: string, item: Item)
    requires Injective(items) && item !in items.Values
    ensures Injective(items[name := item])
  {
  }

  /** `DeathNoteImplementation`: the map's insertion order is `keys`, its contents `items`. */
  class DeathNote {
    var keys: seq<string>
    var items: map<string, Item>
    /** The note the object holds, as a value. */
    ghost var Contents: Note
    /** Every entry object the note has allocated. */
    ghost var Repr: set<Item>

    /** The map invariant, `Contents` is what the objects hold, and every name owns its
        own entry object (each `put` allocates one). */
    ghost predicate Valid()
      reads this, Repr
    {
      && Contents.keys == keys
      && Contents.entries.Keys == items.Keys
      && DeathNoteSpec.Valid(Contents)
      && (forall k :: k in items ==> items[k] in Repr && items[k].View() == Contents.entries[k])
      && Injective(items)
    }

    constructor ()
      ensures Valid() && Contents == Empty && fresh(Repr)
    {
      keys := [];
      items := map[];
      Contents := Empty;
      Repr := {};
    }

    /** `writeName` at time `now`. */
    method WriteName(name: Option<string>, now: int) returns (r: Result<()>)
      requires Valid()
      modifies this
      ensures Valid() && fresh(Repr - old(Repr))
      ensures (Contents, r) == DeathNoteSpec.WriteName(old(Contents), name, now)
    {
      if name.None? {
        return Thrown(NullPointer);
      }
      if IsBlank(name.value) {
        return Ok(());
      }
      Put(name.value, now);
      return Ok(());
    }

    /** `LinkedHashMap.put(name, new DeathNoteItem())`. */
    method Put(name: string, now: int)
      requires Valid()
      modifies this
      ensures Valid() && fresh(Repr - old(Repr))
      ensures Contents == DeathNoteSpec.Put(old(Contents), name, now)
    {
      var item := new Item(now);
      assert item !in Repr;
      assert item !in items.Values;
      InsertKeepsInjective(items, name, item);
      if name !in items {
        keys := keys + [name];
      }
      items := items[name := item];
      Repr := Repr + {item};
      Contents := DeathNoteSpec.Put(Contents, name, now);
      forall k | k in items
        ensures items[k] in Repr && items[k].View() == Contents.entries[k]
      {
        if k != name {
          assert items[k] == old(items)[k];
        }
      }
    }

    /** `writeDeathCause` at time `now`: always the last written name's entry. */
    method WriteDeathCause(cause: Option<string>, now: int) returns (r: Result<bool>)
      requires Valid()
      modifies this, Repr
      ensures Valid() && Repr == old(Repr)
      ensures (Contents, r) == WriteField(old(Contents), Cause, cause, now)
    {
      if |keys| == 0 || cause.None? {
        return Thrown(IllegalState);
      }
      var last := keys[|keys| - 1];
      var item := items[last];
      assert forall k :: k in items && k != last ==> items[k] != item;
      var ok := item.WriteCause(cause.value, now);
      Contents := WriteField(Contents, Cause, cause, now).0;
      return Ok(ok);
    }

    /** `writeDetails` at time `now`: always the last written name's entry. */
    method WriteDetails(details: Option<string>, now: int) returns (r: Result<bool>)
      requires Valid()
      modifies this, Repr
      ensures Valid() && Repr == old(Repr)
      ensures (Contents, r) == WriteField(old(Contents), Details, details, now)
    {
      if |keys| == 0 || details.None? {
        return Thrown(IllegalState);
      }
      var last := keys[|keys| - 1];
      var item := items[last];
      assert forall k :: k in items && k != last ==> items[k] != item;
      var ok := item.WriteDetails(details.value, now);
      Contents := WriteField(Contents, Details, details, now).0;
      return Ok(ok);
    }

    /** `getDeathCause`. */
    method GetDeathCause(name: Option<string>) returns (r: Result<string>)
      requires Valid()
      ensures r == Read(Contents, Cause, name)
    {
      if name.None? || name.value !in items {
        return Thrown(IllegalArgument);
      }
      return Ok(items[name.value].cause);
    }

    /** `getDeathDetails`. */
    method GetDeathDetails(name: Option<string>) returns (r: Result<string>)
      requires Valid()
      ensures r == Read(Contents, Details, name)
    {
      if name.None? || name.value !in items {
        return Thrown(IllegalArgument);
      }
      return Ok(items[name.value].details);
    }

    /** `isNameWritten`: membership in the insertion order. */
    method IsNameWritten(name: Option<string>) returns (b: bool)
      requires Valid()
      ensures b <==> name.Some? && name.value in Contents.keys
    {
      return name.Some? && name.value in items;
    }
  }
}
