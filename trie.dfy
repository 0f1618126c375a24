/**
  An abstract model of the prefix tree that indexes one word length
  (radix_trie::Trie<String, ()>): only its key set and the order in which it
  lists its keys are observable, so it is kept as the strictly sorted
  sequence of its keys.
 */
module Tries {
  import opened LexOrder

  datatype Trie = Trie(keys: seq<string>) {
    /** Keys are listed in increasing order, each once. */
    predicate Valid() {
      StrictlySorted(keys)
    }

    /** Lookup of a key: trie.get(key).is_some(). */
    predicate Has(key: string) {
      key in keys
    }
  }

  function Empty(): (t: Trie)
    ensures t.Valid() && forall k :: !t.Has(k)
  {
    Trie([])
  }

  lemma PrependSorted(x: string, s: seq<string>)
    requires StrictlySorted(s)
    requires forall y :: y in s ==> Less(x, y)
    ensures StrictlySorted([x] + s)
  {
    var r := [x] + s;
    forall i, j | 0 <= i < j < |r| ensures Less(r[i], r[j]) {
      if i == 0 {
        assert r[j] == s[j - 1] && s[j - 1] in s;
      } else {
        assert r[i] == s[i - 1] && r[j] == s[j - 1];
      }
    }
  }

  /** Sorted insertion: the key set grows by `key`, the order stays strict, and a present key changes nothing. */
  function InsertKey(keys: seq<string>, key: string): (r: seq<string>)
    requires StrictlySorted(keys)
    ensures StrictlySorted(r)
    ensures forall x :: x in r <==> x in keys || x == key
    ensures key in keys ==> r == keys
  {
    if keys == [] then [key]
    else if key == keys[0] then keys
    else if Less(key, keys[0]) then
      assert forall y :: y in keys ==> Less(key, y) by {
        forall y | y in keys ensures Less(key, y) {
          var j :| 0 <= j < |keys| && keys[j] == y;
          if j > 0 { LessTransitive(key, keys[0], y); }
        }
      }
      LessIrreflexive(key);
      PrependSorted(key, keys);
      [key] + keys
    else
      var rest := InsertKey(keys[1..], key);
      assert key in keys ==> key in keys[1..] by {
        if key in keys {
          var j :| 0 <= j < |keys| && keys[j] == key;
        }
      }
      assert forall y :: y in rest ==> Less(keys[0], y) by {
        LessTotal(key, keys[0]);
        forall y | y in rest ensures Less(keys[0], y) {
          if y != key {
            var j :| 1 <= j < |keys| && keys[j] == y;
          }
        }
      }
      PrependSorted(keys[0], rest);
      assert key in keys ==> [keys[0]] + rest == keys;
      [keys[0]] + rest
  }

  /** tree.insert(key, ()): afterwards the trie has exactly its old keys and `key`. */
  function Insert(t: Trie, key: string): (r: Trie)
    requires t.Valid()
    ensures r.Valid()
    ensures forall x :: r.Has(x) <==> t.Has(x) || x == key
    ensures t.Has(key) ==> r == t
  {
    Trie(InsertKey(t.keys, key))
  }
}
