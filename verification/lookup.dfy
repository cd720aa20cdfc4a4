/** `shortcut_already_exists`: the case-insensitive duplicate check over the
    records of a loaded store. */
module Lookup {
  import opened Wrappers
  import opened Text
  import opened Vdf

  /** The current field name for the display name, and the older one read as a fallback. */
  const NameKey: string := "appname"
  const LegacyNameKey: string := "AppName"

  /** `record.get(key)`. */
  function Get(rec: Record, key: string): Option<Field> {
    if key in rec then Some(rec[key]) else None
  }

  /** Python truthiness of a `.get` result: None, "" and 0 are false. */
  predicate Truthy(v: Option<Field>) {
    match v
    case None => false
    case Some(Str(s)) => s != []
    case Some(Num(n)) => n != 0
  }

  /** What the check finds as the name of one record: no usable name, a
      non-empty text name, or a number, whose `.lower()` raises. */
  datatype Probe = Unnamed | Named(name: string) | Unlowerable

  /** `record.get("appname") or record.get("AppName")`, classified. */
  function NameProbe(rec: Record): (p: Probe)
    ensures p.Named? ==> p.name != []
    ensures NameKey in rec && rec[NameKey].Str? && rec[NameKey].s != [] ==> p == Named(rec[NameKey].s)
    ensures !Truthy(Get(rec, NameKey)) && !Truthy(Get(rec, LegacyNameKey)) ==> p == Unnamed
    ensures p.Named? ==>
              (Get(rec, NameKey) == Some(Str(p.name))
               || (!Truthy(Get(rec, NameKey)) && Get(rec, LegacyNameKey) == Some(Str(p.name))))
    // The fallback: with a falsy "appname", a non-empty text "AppName" names the record.
    ensures !Truthy(Get(rec, NameKey)) && LegacyNameKey in rec && rec[LegacyNameKey].Str? && rec[LegacyNameKey].s != [] ==>
              p == Named(rec[LegacyNameKey].s)
    // Lower-casing raises exactly when the value `or` picks is a non-zero number.
    ensures p.Unlowerable? <==>
              (Truthy(Get(rec, NameKey)) && rec[NameKey].Num?)
              || (!Truthy(Get(rec, NameKey)) && Truthy(Get(rec, LegacyNameKey)) && rec[LegacyNameKey].Num?)
  {
    var v := if Truthy(Get(rec, NameKey)) then Get(rec, NameKey) else Get(rec, LegacyNameKey);
    if !Truthy(v) then Unnamed
    else match v.value
      case Str(s) => Named(s)
      case Num(_) => Unlowerable
  }

  /** The slot carries a name equal to `appName` ignoring case. */
  predicate NamedAs(slot: Slot, appName: string) {
    var p := NameProbe(slot.record);
    p.Named? && SameIgnoringCase(p.name, appName)
  }

  /** Reaching this slot raises (its name is a non-zero number). */
  predicate Raises(slot: Slot) {
    NameProbe(slot.record).Unlowerable?
  }

  /** The AttributeError raised by `.lower()` on a numeric name. */
  datatype LookupError = NameNotText

  /** Slot `i` matches `appName` and no earlier slot raises. */
  ghost predicate FoundAt(slots: seq<Slot>, appName: string, i: int) {
    && 0 <= i < |slots|
    && NamedAs(slots[i], appName)
    && forall j :: 0 <= j < i ==> !Raises(slots[j])
  }

  /** Slot `i` raises and no earlier slot matches `appName`. */
  ghost predicate RaisesAt(slots: seq<Slot>, appName: string, i: int) {
    && 0 <= i < |slots|
    && Raises(slots[i])
    && forall j :: 0 <= j < i ==> !NamedAs(slots[j], appName)
  }

  /** No slot matches `appName` and none raises. */
  ghost predicate Clean(slots: seq<Slot>, appName: string) {
    forall i :: 0 <= i < |slots| ==> !NamedAs(slots[i], appName) && !Raises(slots[i])
  }

  /** The loop of `shortcut_already_exists` over the slots in order: it stops
      at the first slot that either matches or raises. */
  function Scan(slots: seq<Slot>, appName: string): (r: Result<bool, LookupError>)
    ensures slots == [] ==> r == Success(false)
    decreases |slots|
  {
    if slots == [] then Success(false)
    else match NameProbe(slots[0].record)
      case Unlowerable => Failure(NameNotText)
      case Named(s) =>
        if Lower(s) == Lower(appName) then Success(true) else Scan(slots[1..], appName)
      case Unnamed => Scan(slots[1..], appName)
  }

  /** The three outcomes of the loop, each characterised independently of it:
      found when a match precedes every raising slot, an error when a raising
      slot precedes every match, not found when there is neither. */
  lemma {:induction false} ScanMeaning(slots: seq<Slot>, appName: string)
    ensures Scan(slots, appName) == Success(true) <==> exists i :: FoundAt(slots, appName, i)
    ensures Scan(slots, appName).Failure? <==> exists i :: RaisesAt(slots, appName, i)
    ensures Scan(slots, appName) == Success(false) <==> Clean(slots, appName)
    decreases |slots|
  {
    if slots != [] {
      var tail := slots[1..];
      ScanMeaning(tail, appName);
      assert forall j :: 0 <= j < |tail| ==> tail[j] == slots[j + 1];
      if NamedAs(slots[0], appName) {
        assert FoundAt(slots, appName, 0);
        assert !Clean(slots, appName);
      } else if Raises(slots[0]) {
        assert RaisesAt(slots, appName, 0);
        assert !Clean(slots, appName);
      } else {
        forall i | FoundAt(slots, appName, i) ensures FoundAt(tail, appName, i - 1) {
          assert i != 0;
        }
        forall i | FoundAt(tail, appName, i) ensures FoundAt(slots, appName, i + 1) {
        }
        forall i | RaisesAt(slots, appName, i) ensures RaisesAt(tail, appName, i - 1) {
          assert i != 0;
        }
        forall i | RaisesAt(tail, appName, i) ensures RaisesAt(slots, appName, i + 1) {
        }
        assert Clean(slots, appName) <==> Clean(tail, appName);
      }
    }
  }

  /** `shortcut_already_exists(doc, appName)`: the loop over the stored
      slots, or false when the "shortcuts" key is absent. */
  function ShortcutAlreadyExists(doc: Document, appName: string): (r: Result<bool, LookupError>)
    ensures doc.shortcuts.None? ==> r == Success(false)
  {
    match doc.shortcuts
    case None => Success(false)
    case Some(slots) => Scan(slots, appName)
  }

  /** `shortcut_already_exists` is true exactly when some record carries
      `appName` as its name, ignoring case, before any record whose numeric
      name makes the loop raise; it raises when such a record comes first;
      and it is false when no record matches and none raises. */
  lemma AlreadyExistsMeaning(doc: Document, appName: string)
    ensures ShortcutAlreadyExists(doc, appName) == Success(true) <==> exists i :: FoundAt(Slots(doc), appName, i)
    ensures ShortcutAlreadyExists(doc, appName).Failure? <==> exists i :: RaisesAt(Slots(doc), appName, i)
    ensures ShortcutAlreadyExists(doc, appName) == Success(false) <==> Clean(Slots(doc), appName)
  {
    ScanMeaning(Slots(doc), appName);
  }

  /** A probe with its name lower-cased: all the check ever looks at. */
  function Folded(p: Probe): Probe {
    match p
    case Named(s) => Named(Lower(s))
    case _ => p
  }

  /** The check does not depend on case: neither on the case of the looked-up
      name nor on the case of the stored names. */
  lemma {:induction false} ScanIgnoresCase(slots: seq<Slot>, slots': seq<Slot>, a: string, b: string)
    requires |slots| == |slots'|
    requires forall i :: 0 <= i < |slots| ==> Folded(NameProbe(slots[i].record)) == Folded(NameProbe(slots'[i].record))
    requires SameIgnoringCase(a, b)
    ensures Scan(slots, a) == Scan(slots', b)
    decreases |slots|
  {
    if slots != [] {
      assert Folded(NameProbe(slots[0].record)) == Folded(NameProbe(slots'[0].record));
      ScanIgnoresCase(slots[1..], slots'[1..], a, b);
    }
  }

  /** A stored "Foo" is found when looking for "foo". */
  lemma StoredNameMatchesOtherCase()
    ensures ShortcutAlreadyExists(Document(Some([Slot("0", map[NameKey := Str("Foo")])])), "foo") == Success(true)
  {
    var doc := Document(Some([Slot("0", map[NameKey := Str("Foo")])]));
    assert NamedAs(Slots(doc)[0], "foo");
  }

  /** Once the check has passed over a prefix with a match, anything after it is irrelevant. */
  lemma FoundSurvivesAppend(slots: seq<Slot>, more: seq<Slot>, appName: string)
    requires Scan(slots, appName) == Success(true)
    ensures Scan(slots + more, appName) == Success(true)
  {
    ScanMeaning(slots, appName);
    var i :| FoundAt(slots, appName, i);
    assert forall j :: 0 <= j < |slots| ==> (slots + more)[j] == slots[j];
    assert FoundAt(slots + more, appName, i);
    ScanMeaning(slots + more, appName);
  }

  /** Behind slots that neither match nor raise, a named slot decides the
      check on its own: found exactly when its name agrees with `appName`. */
  lemma AppendedNameDecides(slots: seq<Slot>, last: Slot, appName: string)
    requires Scan(slots, appName) == Success(false)
    requires NameProbe(last.record).Named?
    ensures Scan(slots + [last], appName) == Success(true) <==> NamedAs(last, appName)
    ensures !NamedAs(last, appName) ==> Scan(slots + [last], appName) == Success(false)
  {
    var all := slots + [last];
    ScanMeaning(slots, appName);
    ScanMeaning(all, appName);
    assert all[|slots|] == last;
    assert forall j :: 0 <= j < |slots| ==> all[j] == slots[j];
    if NamedAs(last, appName) {
      assert FoundAt(all, appName, |slots|);
    } else {
      assert Clean(all, appName);
    }
  }
}
