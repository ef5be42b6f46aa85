/** Connection keys and the incidence test both registries use: a key is the
    first node's id, an underscore and the second node's id, in that order; a
    key is taken to involve a node when the node's id occurs anywhere in it. */
module ConnectionKeys {

  datatype Option<T> = None | Some(value: T)

  /** The character between the two ids of a key. */
  const Separator: char := '_'

  /** The key of the connection from the node with id id1 to the node with id id2. */
  function ConnectKey(id1: string, id2: string): (r: string)
  {
    id1 + [Separator] + id2
  }

  /** sub occurs in s starting at position i. */
  predicate OccursAt(s: string, sub: string, i: nat)
  {
    i + |sub| <= |s| && s[i..i + |sub|] == sub
  }

  /** sub occurs somewhere in s. */
  ghost predicate IsSubstring(sub: string, s: string)
  {
    exists i: nat :: OccursAt(s, sub, i)
  }

  /** String.prototype.indexOf(sub, from): the first position at or after from
      where sub occurs in s, or -1. */
  function IndexOfFrom(s: string, sub: string, from: nat): (r: int)
    ensures r == -1 || (from <= r && OccursAt(s, sub, r))
    ensures r == -1 ==> forall i: nat :: from <= i ==> !OccursAt(s, sub, i)
    ensures r != -1 ==> forall i: nat :: from <= i < r ==> !OccursAt(s, sub, i)
    decreases |s| - from
  {
    if from + |sub| > |s| then -1
    else if OccursAt(s, sub, from) then from
    else IndexOfFrom(s, sub, from + 1)
  }

  /** String.prototype.indexOf(sub): -1 exactly when sub does not occur in s;
      otherwise the first position where it does. */
  function IndexOf(s: string, sub: string): (r: int)
    ensures r == -1 <==> !IsSubstring(sub, s)
    ensures r != -1 ==> 0 <= r && OccursAt(s, sub, r) && forall i: nat :: i < r ==> !OccursAt(s, sub, i)
  {
    IndexOfFrom(s, sub, 0)
  }

  /** key.indexOf(id) !== -1: the test by which a key is taken to involve a node. */
  predicate Mentions(key: string, id: string)
  {
    IndexOf(key, id) != -1
  }

  /** Mentions is exactly substring containment. */
  lemma MentionsIsSubstring(key: string, id: string)
    ensures Mentions(key, id) <==> IsSubstring(id, key)
  {
  }

  /** A key mentions both of the ids it was built from. */
  lemma ConnectKeyMentionsBoth(id1: string, id2: string)
    ensures IsSubstring(id1, ConnectKey(id1, id2))
    ensures IsSubstring(id2, ConnectKey(id1, id2))
  {
    var key := ConnectKey(id1, id2);
    assert OccursAt(key, id1, 0) by {
      assert key[0..|id1|] == id1;
    }
    assert OccursAt(key, id2, |id1| + 1) by {
      assert key[|id1| + 1..|id1| + 1 + |id2|] == id2;
    }
  }

  /** Splits a key at its first separator: the inverse of ConnectKey. */
  function SplitKey(key: string): (r: Option<(string, string)>)
  {
    var i := IndexOf(key, [Separator]);
    if i == -1 then None else Some((key[..i], key[i + 1..]))
  }

  /** A key whose first id has no separator splits back into its two ids. */
  lemma SplitConnectKey(id1: string, id2: string)
    requires Separator !in id1
    ensures SplitKey(ConnectKey(id1, id2)) == Some((id1, id2))
  {
    var key := ConnectKey(id1, id2);
    var sep := [Separator];
    assert OccursAt(key, sep, |id1|) by {
      assert key[|id1|..|id1| + 1] == sep;
    }
    forall i: nat | i < |id1|
      ensures !OccursAt(key, sep, i)
    {
      assert key[i] == id1[i];
    }
    var r := IndexOf(key, sep);
    assert r == |id1|;
    assert key[..|id1|] == id1;
    assert key[|id1| + 1..] == id2;
  }

  /** If neither first id has a separator, equal keys come from equal pairs. */
  lemma ConnectKeyInjective(a: string, b: string, c: string, d: string)
    requires Separator !in a && Separator !in c
    requires ConnectKey(a, b) == ConnectKey(c, d)
    ensures a == c && b == d
  {
    SplitConnectKey(a, b);
    SplitConnectKey(c, d);
  }

  /** Keys are order-sensitive: for distinct separator-free ids the reversed
      pair has a different key. */
  lemma ReversedKeysDiffer(a: string, b: string)
    requires Separator !in a && Separator !in b
    requires a != b
    ensures ConnectKey(a, b) != ConnectKey(b, a)
  {
    if ConnectKey(a, b) == ConnectKey(b, a) {
      ConnectKeyInjective(a, b, b, a);
    }
  }

  /** Ids that contain the separator break both facts above: the distinct ids
      "a" and "a_a" have the same key in either order, and the pairs
      ("a_b", "c") and ("a", "b_c") share one key. */
  lemma SeparatorInIdsCollides()
    ensures ConnectKey("a", "a_a") == ConnectKey("a_a", "a")
    ensures ConnectKey("a_b", "c") == ConnectKey("a", "b_c")
  {
  }

  /** Substring incidence reports false positives: node "1" is taken to be
      involved in the connection between nodes "12" and "3". */
  lemma MentionsFalsePositive()
    ensures Mentions(ConnectKey("12", "3"), "1")
  {
    assert OccursAt(ConnectKey("12", "3"), "1", 0);
  }
}
