/**
 * Node names (renpy/ast.py `Node.name`, `__eq__`, `__hash__`).
 *
 * A name is a label string, a tuple, or None. The common tuple
 * `(filename, version, serial)` whose filename is the node's own is stored
 * compactly in two integer slots instead of `_name`.
 */
module Naming {
  /** A tuple component: a string, an integer, or any other value (kept opaque by its description). */
  datatype Atom = AStr(s: string) | AInt(i: int) | AOther(description: string)

  /** A `NodeName`: None, a string, or a tuple. */
  datatype Name = Unnamed | Text(text: string) | Tuple(atoms: seq<Atom>)

  /** The name slots of a node: the file it came from, `_name`, `name_version`, `name_serial`. */
  datatype NameSlots = NameSlots(filename: string, stored: Name, version: int, serial: int)

  /** Python truthiness of a name: None, "" and () are false. */
  predicate Truthy(n: Name)
  {
    match n
    case Unnamed => false
    case Text(t) => |t| > 0
    case Tuple(a) => |a| > 0
  }

  /** The compact form: a three-tuple of the node's own filename and two integers. */
  predicate Compact(filename: string, n: Name)
  {
    n.Tuple? && |n.atoms| == 3 && n.atoms[0] == AStr(filename) && n.atoms[1].AInt? && n.atoms[2].AInt?
  }

  /** A freshly constructed node: `__init__` assigns `name = None`; the integer slots start at 0. */
  function Fresh(filename: string): (slots: NameSlots)
    ensures GetName(slots) == Unnamed
  {
    SetName(NameSlots(filename, Unnamed, 0, 0), Unnamed)
  }

  /** The `name` setter: the compact triple goes to the integer slots, anything else to `_name`. */
  function SetName(slots: NameSlots, value: Name): NameSlots
  {
    if Compact(slots.filename, value) then
      slots.(stored := Unnamed, version := value.atoms[1].i, serial := value.atoms[2].i)
    else
      slots.(stored := value)
  }

  /** The `name` getter: a truthy `_name`, else the triple when the version is nonzero, else None. */
  function GetName(slots: NameSlots): Name
  {
    if Truthy(slots.stored) then slots.stored
    else if slots.version != 0 then Tuple([AStr(slots.filename), AInt(slots.version), AInt(slots.serial)])
    else Unnamed
  }

  /**
   * Round trip: a truthy name reads back as written, whether it was stored in
   * `_name` or compactly, as long as a compact triple has a nonzero version.
   */
  lemma NameRoundTrip(slots: NameSlots, value: Name)
    requires Truthy(value)
    requires Compact(slots.filename, value) ==> value.atoms[1].i != 0
    ensures GetName(SetName(slots, value)) == value
  {
    if Compact(slots.filename, value) {
      var a := value.atoms;
      assert a == [AStr(slots.filename), AInt(a[1].i), AInt(a[2].i)];
    }
  }

  /** A compact triple with version 0 is lost: the node reads back as unnamed. */
  lemma ZeroVersionReadsUnnamed(filename: string, serial: int)
    ensures GetName(SetName(Fresh(filename), Tuple([AStr(filename), AInt(0), AInt(serial)]))) == Unnamed
  {
  }

  /**
   * Clearing does not clear: after a compact name, assigning None (or any
   * other false value) leaves the earlier triple visible.
   */
  lemma ClearKeepsCompact(slots: NameSlots, value: Name, cleared: Name)
    requires Compact(slots.filename, value) && value.atoms[1].i != 0
    requires !Truthy(cleared)
    ensures GetName(SetName(SetName(slots, value), cleared)) == value
  {
    NameRoundTrip(slots, value);
    var a := value.atoms;
    assert a == [AStr(slots.filename), AInt(a[1].i), AInt(a[2].i)];
  }

  /** A triple naming another file is not compact: it is kept whole in `_name`. */
  lemma ForeignTripleKeptWhole(slots: NameSlots, other: string, version: int, serial: int)
    requires other != slots.filename
    ensures SetName(slots, Tuple([AStr(other), AInt(version), AInt(serial)])).stored ==
              Tuple([AStr(other), AInt(version), AInt(serial)])
    ensures GetName(SetName(slots, Tuple([AStr(other), AInt(version), AInt(serial)]))) ==
              Tuple([AStr(other), AInt(version), AInt(serial)])
  {
  }

  /** `__eq__` between nodes: their names are equal. `__hash__` hashes the name, so it agrees. */
  predicate SameNode(a: NameSlots, b: NameSlots)
  {
    GetName(a) == GetName(b)
  }

  /** Any two nodes that were never named compare equal (and hash alike). */
  lemma UnnamedNodesEqual(f1: string, f2: string)
    ensures SameNode(Fresh(f1), Fresh(f2))
  {
  }

  /** Two nodes named with compact triples are equal exactly when file, version and serial agree. */
  lemma CompactNamesEqual(s1: NameSlots, s2: NameSlots, v1: int, n1: int, v2: int, n2: int)
    requires v1 != 0 && v2 != 0
    ensures SameNode(SetName(s1, Tuple([AStr(s1.filename), AInt(v1), AInt(n1)])),
                     SetName(s2, Tuple([AStr(s2.filename), AInt(v2), AInt(n2)])))
            <==> s1.filename == s2.filename && v1 == v2 && n1 == n2
  {
    var t1 := Tuple([AStr(s1.filename), AInt(v1), AInt(n1)]);
    var t2 := Tuple([AStr(s2.filename), AInt(v2), AInt(n2)]);
    NameRoundTrip(s1, t1);
    NameRoundTrip(s2, t2);
    if t1 == t2 {
      assert t1.atoms[0] == t2.atoms[0] && t1.atoms[1] == t2.atoms[1] && t1.atoms[2] == t2.atoms[2];
    }
  }
}
