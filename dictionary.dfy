/**
  The pure part of loading the word list: every line is trimmed of
  surrounding whitespace and a line with an apostrophe is dropped. Reading
  the file is not modelled; the lines are a parameter.
 */
module Dictionary {

  /** Unicode White_Space, the set that str::trim removes. */
  predicate IsWhitespace(c: char) {
    || '\t' <= c <= '\r'
    || c == ' '
    || c == '\U{0085}' || c == '\U{00A0}' || c == '\U{1680}'
    || '\U{2000}' <= c <= '\U{200A}'
    || c == '\U{2028}' || c == '\U{2029}' || c == '\U{202F}' || c == '\U{205F}' || c == '\U{3000}'
  }

  predicate AllWhitespace(s: string) {
    forall i :: 0 <= i < |s| ==> IsWhitespace(s[i])
  }

  /** Splitting off the first character of s commutes with cutting s at k. */
  lemma SplitHead(s: string, k: nat)
    requires 1 <= k <= |s|
    ensures s[..k] == [s[0]] + s[1..][..k - 1]
    ensures s[k..] == s[1..][k - 1..]
  {
  }

  /** Splitting off the last character of s commutes with cutting s at k. */
  lemma SplitLast(s: string, k: nat)
    requires k < |s|
    ensures s[..k] == s[..|s| - 1][..k]
    ensures s[k..] == s[..|s| - 1][k..] + [s[|s| - 1]]
  {
  }

  lemma WhitespaceCons(c: char, t: string)
    requires IsWhitespace(c) && AllWhitespace(t)
    ensures AllWhitespace([c] + t)
  {
    assert forall i :: 1 <= i <= |t| ==> ([c] + t)[i] == t[i - 1];
  }

  lemma WhitespaceSnoc(t: string, c: char)
    requires AllWhitespace(t) && IsWhitespace(c)
    ensures AllWhitespace(t + [c])
  {
    assert forall i :: 0 <= i < |t| ==> (t + [c])[i] == t[i];
  }

  /** s with its leading whitespace removed: a suffix of s, preceded only by whitespace. */
  function TrimStart(s: string): (r: string)
    ensures |r| <= |s| && r == s[|s| - |r|..]
    ensures AllWhitespace(s[..|s| - |r|])
    ensures r == [] || !IsWhitespace(r[0])
  {
    if s != [] && IsWhitespace(s[0]) then
      var r := TrimStart(s[1..]);
      var k := |s| - |r|;
      SplitHead(s, k);
      WhitespaceCons(s[0], s[1..][..k - 1]);
      r
    else s
  }

  /** s with its trailing whitespace removed: a prefix of s, followed only by whitespace. */
  function TrimEnd(s: string): (r: string)
    ensures |r| <= |s| && r == s[..|r|]
    ensures AllWhitespace(s[|r|..])
    ensures r == [] || !IsWhitespace(r[|r| - 1])
  {
    if s != [] && IsWhitespace(s[|s| - 1]) then
      var r := TrimEnd(s[..|s| - 1]);
      SplitLast(s, |r|);
      WhitespaceSnoc(s[..|s| - 1][|r|..], s[|s| - 1]);
      r
    else s
  }

  /** str::trim: TrimEnd after TrimStart; what is left neither starts nor ends with whitespace. */
  function Trim(s: string): (r: string)
    ensures |r| <= |s|
    ensures r == [] || (!IsWhitespace(r[0]) && !IsWhitespace(r[|r| - 1]))
  {
    TrimEnd(TrimStart(s))
  }

  /** Trim(s) is the stretch of s that starts at `lead`, and outside it s has only whitespace. */
  lemma TrimIsInfix(s: string) returns (lead: nat)
    ensures lead + |Trim(s)| <= |s| && s[lead..lead + |Trim(s)|] == Trim(s)
    ensures AllWhitespace(s[..lead]) && AllWhitespace(s[lead + |Trim(s)|..])
  {
    var t := TrimStart(s);
    var r := TrimEnd(t);
    assert Trim(s) == r;
    lead := |s| - |t|;
    SplitSuffix(s, lead, |r|);
  }

  /** Cutting the suffix s[lead..] at k is cutting s at lead + k. */
  lemma SplitSuffix(s: string, lead: nat, k: nat)
    requires lead + k <= |s|
    ensures s[lead..][..k] == s[lead..lead + k]
    ensures s[lead..][k..] == s[lead + k..]
  {
  }

  lemma TrimIdempotent(s: string)
    ensures Trim(Trim(s)) == Trim(s)
  {
  }

  lemma {:induction false} TrimStartPadded(pre: string, x: string)
    requires AllWhitespace(pre) && (x == [] || !IsWhitespace(x[0]))
    ensures TrimStart(pre + x) == x
    decreases |pre|
  {
    if pre != [] {
      assert (pre + x)[1..] == pre[1..] + x;
      TrimStartPadded(pre[1..], x);
    } else {
      assert pre + x == x;
    }
  }

  lemma {:induction false} TrimEndPadded(x: string, post: string)
    requires AllWhitespace(post) && (x == [] || !IsWhitespace(x[|x| - 1]))
    ensures TrimEnd(x + post) == x
    decreases |post|
  {
    if post != [] {
      var post' := post[..|post| - 1];
      assert (x + post)[..|x + post| - 1] == x + post';
      TrimEndPadded(x, post');
    } else {
      assert x + post == x;
    }
  }

  /** A line that is some text padded with whitespace trims to that text. */
  lemma TrimPadded(pre: string, word: string, post: string)
    requires AllWhitespace(pre) && AllWhitespace(post)
    requires word == [] || (!IsWhitespace(word[0]) && !IsWhitespace(word[|word| - 1]))
    ensures Trim(pre + word + post) == word
  {
    if word == [] {
      assert pre + word + post == (pre + post) + [];
      TrimStartPadded(pre + post, []);
      TrimEndPadded([], []);
    } else {
      assert pre + word + post == pre + (word + post);
      TrimStartPadded(pre, word + post);
      TrimEndPadded(word, post);
    }
  }

  /** Every line trimmed, in order: entry i is Trim(lines[i]). */
  function Trimmed(lines: seq<string>): (words: seq<string>)
    ensures |words| == |lines|
    ensures forall i :: 0 <= i < |lines| ==> words[i] == Trim(lines[i])
  {
    if lines == [] then [] else Trimmed(lines[..|lines| - 1]) + [Trim(lines[|lines| - 1])]
  }

  /** The words kept from the lines, in order: each line trimmed, those containing an apostrophe dropped. */
  function Kept(lines: seq<string>): (words: seq<string>)
    ensures |words| <= |lines|
    ensures forall w :: w in words ==> '\'' !in w
  {
    if lines == [] then []
    else
      var word := Trim(lines[|lines| - 1]);
      Kept(lines[..|lines| - 1]) + (if '\'' in word then [] else [word])
  }

  /** One more line adds its trimmed form, unless that has an apostrophe. */
  lemma KeptSnoc(lines: seq<string>, i: nat)
    requires i < |lines|
    ensures Kept(lines[..i + 1]) ==
            Kept(lines[..i]) + (if '\'' in Trim(lines[i]) then [] else [Trim(lines[i])])
  {
    assert lines[..i + 1][..i] == lines[..i];
  }

  /** A word is kept exactly when it is the trimmed form of some line and has no apostrophe. */
  lemma {:induction false} KeptMembers(lines: seq<string>, w: string)
    ensures w in Kept(lines) <==> '\'' !in w && w in Trimmed(lines)
  {
    if lines != [] {
      KeptMembers(lines[..|lines| - 1], w);
    }
  }

  /** Filtering keeps the order of the lines: it distributes over concatenation. */
  lemma {:induction false} KeptAppend(a: seq<string>, b: seq<string>)
    ensures Kept(a + b) == Kept(a) + Kept(b)
    decreases |b|
  {
    if b == [] {
      assert a + b == a;
    } else {
      var b' := b[..|b| - 1];
      assert (a + b)[..|a + b| - 1] == a + b';
      KeptAppend(a, b');
    }
  }

  /** The loop of load_dictionary over already-read lines: trim, skip a line with an apostrophe, push. */
  method LoadDictionary(lines: seq<string>) returns (wordlist: seq<string>)
    ensures wordlist == Kept(lines)
  {
    wordlist := [];
    for i := 0 to |lines|
      invariant wordlist == Kept(lines[..i])
    {
      KeptSnoc(lines, i);
      var word := Trim(lines[i]);
      if '\'' in word {
        continue;
      }
      wordlist := wordlist + [word];
    }
    assert lines[..|lines|] == lines;
  }
}
