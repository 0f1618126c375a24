/**
  The length-partitioned lexicon: one trie per word length 0..n, each holding
  the ASCII-uppercased dictionary words of exactly that length. The
  dictionary is an explicit parameter.
 */
module Lexicons {
  import opened LexOrder
  import opened Tries

  predicate IsAsciiLower(c: char) {
    'a' <= c <= 'z'
  }

  /** No character of s is an ASCII lowercase letter. */
  predicate NoAsciiLower(s: string) {
    forall i :: 0 <= i < |s| ==> !IsAsciiLower(s[i])
  }

  /** char::to_ascii_uppercase: 'a'..'z' become 'A'..'Z', everything else is kept. */
  function AsciiUpper(c: char): (u: char)
    ensures !IsAsciiLower(u)
    ensures IsAsciiLower(c) ==> 'A' <= u <= 'Z' && u as int + 32 == c as int
    ensures !IsAsciiLower(c) ==> u == c
  {
    if IsAsciiLower(c) then (c as int - 32) as char else c
  }

  /** The number of bytes UTF-8 uses for the scalar value c. */
  function Utf8Width(c: char): (w: nat)
    ensures 1 <= w <= 4
    ensures w == 1 <==> c as int < 0x80
  {
    if c as int < 0x80 then 1
    else if c as int < 0x800 then 2
    else if c as int < 0x1_0000 then 3
    else 4
  }

  /** str::len: the length of s in UTF-8 bytes, at least its number of characters. */
  function Utf8Len(s: string): (len: nat)
    ensures |s| <= len <= 4 * |s|
  {
    if s == [] then 0 else Utf8Width(s[0]) + Utf8Len(s[1..])
  }

  /** Strings whose characters pairwise have the same width have the same byte length. */
  lemma {:induction false} SameWidthsSameLen(s: string, t: string)
    requires |s| == |t| && forall i :: 0 <= i < |s| ==> Utf8Width(s[i]) == Utf8Width(t[i])
    ensures Utf8Len(s) == Utf8Len(t)
  {
    if s != [] {
      assert Utf8Width(s[0]) == Utf8Width(t[0]);
      SameWidthsSameLen(s[1..], t[1..]);
    }
  }

  /** An ASCII string has as many bytes as characters. */
  lemma {:induction false} AsciiLenIsCharCount(s: string)
    requires forall i :: 0 <= i < |s| ==> s[i] as int < 0x80
    ensures Utf8Len(s) == |s|
  {
    if s != [] {
      assert s[0] as int < 0x80;
      AsciiLenIsCharCount(s[1..]);
    }
  }

  /** str::to_ascii_uppercase, character by character; it keeps the byte length. */
  function Upper(s: string): (r: string)
    ensures |r| == |s|
    ensures forall i :: 0 <= i < |s| ==> r[i] == AsciiUpper(s[i])
    ensures Utf8Len(r) == Utf8Len(s)
  {
    var r := seq(|s|, i requires 0 <= i < |s| => AsciiUpper(s[i]));
    SameWidthsSameLen(r, s);
    r
  }

  /** Uppercasing leaves no lowercase letter and is idempotent. */
  lemma UpperNormalizes(s: string)
    ensures NoAsciiLower(Upper(s))
    ensures Upper(Upper(s)) == Upper(s)
  {
  }

  /** The keys that the index for length n holds: the uppercased dictionary words of n bytes. */
  ghost function IndexKeys(dict: seq<string>, n: nat): (keys: set<string>)
    ensures forall k :: k in keys ==> Utf8Len(k) == n && NoAsciiLower(k)
  {
    set w | w in dict && Utf8Len(w) == n :: Upper(w)
  }

  /** t is an index of the words of length n: sorted keys, exactly IndexKeys(dict, n). */
  ghost predicate Indexes(t: Trie, dict: seq<string>, n: nat) {
    t.Valid() && forall k :: t.Has(k) <==> k in IndexKeys(dict, n)
  }

  lemma IndexKeysSnoc(dict: seq<string>, w: string, n: nat)
    ensures IndexKeys(dict + [w], n) == IndexKeys(dict, n) + (if Utf8Len(w) == n then {Upper(w)} else {})
  {
    var lhs := IndexKeys(dict + [w], n);
    var rhs := IndexKeys(dict, n) + (if Utf8Len(w) == n then {Upper(w)} else {});
    forall k | k in lhs ensures k in rhs {
      var v :| v in dict + [w] && Utf8Len(v) == n && Upper(v) == k;
      if v != w {
        assert v in dict;
      }
    }
    forall k | k in rhs ensures k in lhs {
      if k in IndexKeys(dict, n) {
        var v :| v in dict && Utf8Len(v) == n && Upper(v) == k;
        assert v in dict + [w];
      } else {
        assert w in dict + [w];
      }
    }
  }

  /** compile_n_prefix_tree: insert the uppercased form of every dictionary word of n bytes. */
  method CompileNPrefixTree(dict: seq<string>, n: nat) returns (tree: Trie)
    ensures tree.Valid()
    ensures forall k :: tree.Has(k) <==> exists w :: w in dict && Utf8Len(w) == n && Upper(w) == k
    ensures Indexes(tree, dict, n)
  {
    tree := Empty();
    for i := 0 to |dict|
      invariant Indexes(tree, dict[..i], n)
    {
      var word := dict[i];
      assert dict[..i + 1] == dict[..i] + [word];
      IndexKeysSnoc(dict[..i], word, n);
      if Utf8Len(word) != n {
        continue;
      }
      var normalized := Upper(word);
      tree := Insert(tree, normalized);
    }
    assert dict[..|dict|] == dict;
  }

  /** The index of a length is unique: any two indexes of the same keys are the same trie. */
  lemma IndexUnique(t: Trie, u: Trie, dict: seq<string>, n: nat)
    requires Indexes(t, dict, n) && Indexes(u, dict, n)
    ensures t == u
  {
    forall x ensures x in t.keys <==> x in u.keys {
      assert t.Has(x) <==> x in IndexKeys(dict, n);
      assert u.Has(x) <==> x in IndexKeys(dict, n);
    }
    SortedUnique(t.keys, u.keys);
  }

  datatype Lexicon = Lexicon(trees: seq<Trie>)

  /** lex holds, at every position i <= n, the index of the words of length i. */
  ghost predicate BuiltFrom(lex: Lexicon, dict: seq<string>, n: nat) {
    |lex.trees| == n + 1 && forall i :: 0 <= i < |lex.trees| ==> Indexes(lex.trees[i], dict, i)
  }

  /** Lexicon::build: one compiled index per length 0..=n, in order of length. */
  method Build(dict: seq<string>, n: nat) returns (lex: Lexicon)
    ensures |lex.trees| == n + 1
    ensures forall i :: 0 <= i <= n ==> Indexes(lex.trees[i], dict, i)
    ensures BuiltFrom(lex, dict, n)
  {
    var trees: seq<Trie> := [];
    for i := 0 to n + 1
      invariant |trees| == i
      invariant forall j :: 0 <= j < i ==> Indexes(trees[j], dict, j)
    {
      var tree := CompileNPrefixTree(dict, i);
      trees := trees + [tree];
    }
    lex := Lexicon(trees);
  }

  /** Lexicon::contains: the query, verbatim, looked up in the index for its byte length. */
  function Contains(lex: Lexicon, word: seq<char>): bool
    requires Utf8Len(word) < |lex.trees|
  {
    lex.trees[Utf8Len(word)].Has(word)
  }

  /** Lexicon::n_dictionary: the keys of index m, in the trie's order. */
  function NDictionary(lex: Lexicon, m: nat): seq<string>
    requires m < |lex.trees|
  {
    lex.trees[m].keys
  }

  /**
    A query is found exactly when some dictionary word uppercases to it; the
    word then has the query's byte length, so it sits in the index looked up.
   */
  lemma ContainsIff(lex: Lexicon, dict: seq<string>, n: nat, word: string)
    requires BuiltFrom(lex, dict, n) && Utf8Len(word) <= n
    ensures Contains(lex, word) <==> exists w :: w in dict && Upper(w) == word
  {
    var len := Utf8Len(word);
    assert Indexes(lex.trees[len], dict, len);
    if exists w :: w in dict && Upper(w) == word {
      var w :| w in dict && Upper(w) == word;
      assert Utf8Len(w) == len;
      assert word in IndexKeys(dict, len);
    }
    if Contains(lex, word) {
      assert word in IndexKeys(dict, len);
      var w :| w in dict && Utf8Len(w) == len && Upper(w) == word;
    }
  }

  /** The query is not uppercased, so one with a lowercase letter is never found. */
  lemma LowercaseQueryNotFound(lex: Lexicon, dict: seq<string>, n: nat, word: string, i: nat)
    requires BuiltFrom(lex, dict, n) && Utf8Len(word) <= n
    requires i < |word| && IsAsciiLower(word[i])
    ensures !Contains(lex, word)
  {
    assert Indexes(lex.trees[Utf8Len(word)], dict, Utf8Len(word));
  }

  /**
    Every word of the dictionary is found in uppercase, in the index for its
    byte length, provided the lexicon was built up to that length.
   */
  lemma DictionaryWordFound(lex: Lexicon, dict: seq<string>, n: nat, w: string)
    requires BuiltFrom(lex, dict, n) && w in dict && Utf8Len(w) <= n
    ensures Contains(lex, Upper(w))
  {
    assert Indexes(lex.trees[Utf8Len(w)], dict, Utf8Len(w));
    assert Upper(w) in IndexKeys(dict, Utf8Len(w));
  }

  /** n_dictionary(m) lists the keys of m bytes, each once, in strictly increasing order. */
  lemma NDictionaryListsIndex(lex: Lexicon, dict: seq<string>, n: nat, m: nat)
    requires BuiltFrom(lex, dict, n) && m <= n
    ensures StrictlySorted(NDictionary(lex, m))
    ensures forall i, j :: 0 <= i < j < |NDictionary(lex, m)| ==> NDictionary(lex, m)[i] != NDictionary(lex, m)[j]
    ensures forall k :: k in NDictionary(lex, m) <==> exists w :: w in dict && Utf8Len(w) == m && Upper(w) == k
    ensures forall k :: k in NDictionary(lex, m) ==> Utf8Len(k) == m && NoAsciiLower(k)
  {
    var t := lex.trees[m];
    assert Indexes(t, dict, m);
    forall i, j | 0 <= i < j < |t.keys| ensures t.keys[i] != t.keys[j] {
      SortedDistinct(t.keys, i, j);
    }
    forall k ensures k in t.keys <==> exists w :: w in dict && Utf8Len(w) == m && Upper(w) == k {
      assert t.Has(k) <==> k in IndexKeys(dict, m);
      if exists w :: w in dict && Utf8Len(w) == m && Upper(w) == k {
        var w :| w in dict && Utf8Len(w) == m && Upper(w) == k;
        assert Upper(w) in IndexKeys(dict, m);
      }
    }
  }

  /**
    Words are partitioned by bytes, not characters: `w` has four characters
    and five bytes (`e` with an acute accent takes two), so its uppercased
    form is listed for length 5 and not for length 4.
   */
  lemma NonAsciiWordPartitionedByBytes(lex: Lexicon, dict: seq<string>, n: nat, w: string)
    requires BuiltFrom(lex, dict, n) && 5 <= n
    requires w == "caf\U{00E9}" && w in dict
    ensures |w| == 4 && Utf8Len(w) == 5
    ensures Upper(w) == "CAF\U{00E9}"
    ensures Upper(w) in NDictionary(lex, 5) && Upper(w) !in NDictionary(lex, 4)
  {
    assert Utf8Len(w[3..]) == 2;
    assert Utf8Len(w[2..]) == 3;
    assert Utf8Len(w[1..]) == 4;
    NDictionaryListsIndex(lex, dict, n, 5);
    NDictionaryListsIndex(lex, dict, n, 4);
  }

  /** Index i of a built lexicon is the trie that CompileNPrefixTree(dict, i) returns, whatever dictionary. */
  lemma BuiltIndexIsCompiled(lex: Lexicon, dict: seq<string>, n: nat, i: nat, t: Trie)
    requires BuiltFrom(lex, dict, n) && i <= n
    requires Indexes(t, dict, i)
    ensures lex.trees[i] == t
  {
    IndexUnique(lex.trees[i], t, dict, i);
  }

  /** Byte lengths of the words of the example dictionary. */
  lemma CaseVariantLengths(dict: seq<string>)
    requires dict == ["cat", "Cat", "CAT", "dog", "horse"]
    ensures forall i :: 0 <= i < 4 ==> Utf8Len(dict[i]) == 3
    ensures Utf8Len(dict[4]) != 3
  {
    forall i | 0 <= i < 4 ensures Utf8Len(dict[i]) == 3 {
      AsciiLenIsCharCount(dict[i]);
    }
  }

  /** Uppercased forms of the words of the example dictionary. */
  lemma CaseVariantUppercase(dict: seq<string>)
    requires dict == ["cat", "Cat", "CAT", "dog", "horse"]
    ensures Upper(dict[0]) == Upper(dict[1]) == Upper(dict[2]) == "CAT"
    ensures Upper(dict[3]) == "DOG"
  {
  }

  /** Five words of which the first four have three bytes and uppercase to CAT, CAT, CAT, DOG. */
  lemma CaseVariantKeys(dict: seq<string>)
    requires |dict| == 5
    requires forall i :: 0 <= i < 4 ==> Utf8Len(dict[i]) == 3
    requires Utf8Len(dict[4]) != 3
    requires Upper(dict[0]) == Upper(dict[1]) == Upper(dict[2]) == "CAT" && Upper(dict[3]) == "DOG"
    ensures IndexKeys(dict, 3) == {"CAT", "DOG"}
  {
    forall k ensures k in IndexKeys(dict, 3) <==> k in {"CAT", "DOG"} {
      if k in IndexKeys(dict, 3) {
        var w :| w in dict && Utf8Len(w) == 3 && Upper(w) == k;
        var i :| 0 <= i < |dict| && dict[i] == w;
      }
      assert dict[0] in dict && dict[3] in dict;
    }
  }

  /** With those keys, the trie listing CAT then DOG is the index. */
  lemma CaseVariantIndex(dict: seq<string>)
    requires IndexKeys(dict, 3) == {"CAT", "DOG"}
    ensures Indexes(Trie(["CAT", "DOG"]), dict, 3)
  {
    assert Less("CAT", "DOG");
  }

  /** Spellings that differ only in case share one key: "cat", "Cat" and "CAT" index as the single "CAT". */
  lemma CaseVariantsCollapse(t: Trie, dict: seq<string>)
    requires dict == ["cat", "Cat", "CAT", "dog", "horse"]
    requires Indexes(t, dict, 3)
    ensures t.keys == ["CAT", "DOG"]
  {
    CaseVariantLengths(dict);
    CaseVariantUppercase(dict);
    CaseVariantKeys(dict);
    CaseVariantIndex(dict);
    IndexUnique(t, Trie(["CAT", "DOG"]), dict, 3);
  }
}
