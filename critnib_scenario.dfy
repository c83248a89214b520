/**
 * Small runs of the crit-nib index: the first key set is found again, a key that extends
 * a stored one is refused, and removing one of two keys leaves the other in place.
 */
module CritnibScenario {
  import opened Wrappers
  import opened CritnibBits
  import opened Critnib

  /** Setting a key in a new index and looking it up gives back its value. */
  method FirstKeyIsFound<V>(key: Key, value: V) returns (st: SetStatus, r: Option<V>)
    ensures st == Success && r == Some(value)
  {
    var c := new Index<V>();
    st := c.Set(key, value);
    r := c.Get(key);
  }

  /** A key that extends a stored key is refused, and the stored key keeps its value. */
  method ExtensionRefused() returns (st1: SetStatus, st2: SetStatus, r: Option<int>)
    ensures st1 == Success && st2 == AlreadyExists && r == Some(1)
  {
    var c := new Index<int>();
    st1 := c.Set([7], 1);
    assert Compatible([7], [7, 8]);
    st2 := c.Set([7, 8], 2);
    r := c.Get([7]);
  }

  /** Of two keys that differ in their first byte, removing one leaves the other. */
  method RemoveOne() returns (r1: Option<int>, r2: Option<int>, r3: Option<int>)
    ensures r1 == Some(1) && r2 == None && r3 == Some(2)
  {
    var c := new Index<int>();
    var st1 := c.Set([7], 1);
    assert [7][..1][0] != [9][..1][0];
    var st2 := c.Set([9], 2);
    r1 := c.Remove([7]);
    r2 := c.Get([7]);
    r3 := c.Get([9]);
  }
}
