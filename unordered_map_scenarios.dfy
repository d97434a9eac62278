/**
  Clients of the frozen unordered map: the concrete maps of its test suite, with what
  the contracts let a caller conclude about them. The table is left abstract, constrained
  only by the hypothesis its construction provides.
*/
module FrozenUnorderedMapScenarios {
  import opened FrozenUnorderedMap

  function IntEq(a: int, b: int): bool { a == b }

  /** The one-entry map {1: 2.0}. */
  lemma SingletonMap(lookup: int -> nat)
    requires SendsKeysHome([(1, 2.0)], lookup)
    ensures Count([(1, 2.0)], 1, lookup, IntEq) == 1
    ensures Count([(1, 2.0)], 3, lookup, IntEq) == 0
    ensures At([(1, 2.0)], 1, lookup, IntEq) == Success(2.0)
    ensures Find([(1, 2.0)], 3, lookup, IntEq) == 1  // end()
    ensures Find([(1, 2.0)], 1, lookup, IntEq) == 0  // begin()
    ensures EqualRange([(1, 2.0)], 1, lookup, IntEq) == (0, 1)
  {
    FindLocatesStoredKeys([(1, 2.0)], lookup, IntEq, 0);
  }

  /** The map {3: 4, 11: 12}: a key that is not stored is never found, whatever the table says. */
  lemma AbsentKeyNeverFound(lookup: int -> nat, key: int)
    requires key != 3 && key != 11
    ensures Find([(3, 4), (11, 12)], key, lookup, IntEq) == 2
    ensures !Contains([(3, 4), (11, 12)], key, lookup, IntEq)
    ensures At([(3, 4), (11, 12)], key, lookup, IntEq) == Failure(OutOfRange)
  {
  }

  /** The modifiable map {0: 1, 2: 3, 4: 5}: values written through at() and through
      iterators are seen by later lookups, and keys and size stay as constructed. */
  method ModifiableMap(lookup: int -> nat)
    requires SendsKeysHome([(0, 1), (2, 3), (4, 5)], lookup)
  {
    var m := new UnorderedMap([(0, 1), (2, 3), (4, 5)]);
    FindLocatesStoredKeys(m.Entries(), lookup, IntEq, 0);
    FindLocatesStoredKeys(m.Entries(), lookup, IntEq, 1);
    assert At(m.Entries(), 2, lookup, IntEq) == Success(3);
    assert At(m.Entries(), 5, lookup, IntEq) == Failure(OutOfRange);

    var r := m.SetAt(0, lookup, IntEq, -1);
    assert r == Success(0);
    assert At(m.Entries(), 0, lookup, IntEq) == Success(-1);

    m.SetValue(m.Begin(), -2);
    assert m.Entries()[m.Begin()].1 == -2;

    m.SetValue(m.End() - 1, -3);
    assert m.Entries()[m.End() - 1].1 == -3;

    var range := EqualRange(m.Entries(), 4, lookup, IntEq);
    FindLocatesStoredKeys(m.Entries(), lookup, IntEq, 2);
    m.SetValue(range.0, -5);
    FindLocatesStoredKeys(m.Entries(), lookup, IntEq, 2);
    assert At(m.Entries(), 4, lookup, IntEq) == Success(-5);
    assert m.Entries() == [(0, -2), (2, 3), (4, -5)];
    assert m.Size() == 3;
  }

  /** A three-character query compared with stored strings ignoring case. */
  datatype CaseInsensitive = CaseInsensitive(data: seq<char>)

  function ToLower(c: char): char {
    if 'A' <= c <= 'Z' then (c as int + 32) as char else c
  }

  predicate EqualsIgnoringCase(stored: string, query: CaseInsensitive) {
    |stored| == |query.data| && forall i :: 0 <= i < |stored| ==> ToLower(stored[i]) == ToLower(query.data[i])
  }

  /** The map {"one": 1} queried through a transparent, case-insensitive comparison. */
  lemma TransparentLookup(lookup: CaseInsensitive -> nat)
    requires SendsMatchesHome([("one", 1)], lookup, EqualsIgnoringCase)
    ensures Count([("one", 1)], CaseInsensitive("OnE"), lookup, EqualsIgnoringCase) == 1
    ensures At([("one", 1)], CaseInsensitive("OnE"), lookup, EqualsIgnoringCase) == Success(1)
    ensures Count([("one", 1)], CaseInsensitive("One"), lookup, EqualsIgnoringCase) == 1
    ensures Count([("one", 1)], CaseInsensitive("TwO"), lookup, EqualsIgnoringCase) == 0
    ensures Count([("one", 1)], CaseInsensitive("333"), lookup, EqualsIgnoringCase) == 0
  {
    assert EqualsIgnoringCase("one", CaseInsensitive("OnE"));
    assert EqualsIgnoringCase("one", CaseInsensitive("One"));
    assert !EqualsIgnoringCase("one", CaseInsensitive("TwO")) by {
      assert ToLower("one"[0]) != ToLower("TwO"[0]);
    }
    assert !EqualsIgnoringCase("one", CaseInsensitive("333")) by {
      assert ToLower("one"[0]) != ToLower("333"[0]);
    }
    AtReturnsStoredValue([("one", 1)], CaseInsensitive("OnE"), lookup, EqualsIgnoringCase, 0);
    AtReturnsStoredValue([("one", 1)], CaseInsensitive("One"), lookup, EqualsIgnoringCase, 0);
  }
}
