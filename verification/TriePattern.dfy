/** The trie regex of the added-token strings (overlay/patch_output_token_split.py:75-95; the same
    code as overlay/patch_control_token_injection.py:59-79). */
module TriePattern {
  import opened Wrappers

  // ---------------------------------------------------------------------------
  // The trie.

  /** A node: whether a word ends here (the "" key), and its children. The dictionary is only
      ever read through sorted(items()), so the children are kept sorted. */
  datatype Trie = Node(word: bool, kids: seq<Branch>)
  datatype Branch = Branch(key: char, node: Trie)

  /** The child for a character, if any. */
  function NodeAt(kids: seq<Branch>, c: char): Option<Trie> {
    if kids == [] then None else if kids[0].key == c then Some(kids[0].node) else NodeAt(kids[1..], c)
  }

  lemma {:induction false} NodeAtIsKid(kids: seq<Branch>, c: char)
    requires NodeAt(kids, c).Some?
    ensures Branch(c, NodeAt(kids, c).value) in kids
  {
    if kids[0].key != c {
      NodeAtIsKid(kids[1..], c);
    } else {
      assert kids[0] == Branch(c, NodeAt(kids, c).value);
    }
  }

  /** A word of the trie. */
  predicate Has(t: Trie, w: string)
    decreases |w|
  {
    if w == [] then t.word
    else
      var child := NodeAt(t.kids, w[0]);
      child.Some? && Has(child.value, w[1..])
  }

  ghost predicate Sorted(kids: seq<Branch>) {
    forall i, j :: 0 <= i < j < |kids| ==> kids[i].key < kids[j].key
  }

  /** Children in the order of their characters, each character once; a leaf ends a word. */
  ghost predicate Ordered(t: Trie)
    decreases t
  {
    Sorted(t.kids) && forall b :: b in t.kids ==> Ordered(b.node) && LeafIsWord(b.node)
  }

  predicate LeafIsWord(t: Trie) {
    t.kids == [] ==> t.word
  }

  /** The children with the given one in its place. */
  function Put(kids: seq<Branch>, c: char, node: Trie): (r: seq<Branch>)
    ensures forall b :: b in r ==> b in kids || b == Branch(c, node)
    ensures r != []
  {
    if kids == [] || c < kids[0].key then [Branch(c, node)] + kids
    else if kids[0].key == c then [Branch(c, node)] + kids[1..]
    else [kids[0]] + Put(kids[1..], c, node)
  }

  /** The setdefault walk for one word. */
  function Insert(t: Trie, w: string): Trie
    decreases |w|
  {
    if w == [] then Node(true, t.kids)
    else
      var child := NodeAt(t.kids, w[0]);
      Node(t.word, Put(t.kids, w[0], Insert(if child.Some? then child.value else Node(false, []), w[1..])))
  }

  function FromWords(words: seq<string>): Trie {
    if words == [] then Node(false, []) else Insert(FromWords(words[..|words| - 1]), words[|words| - 1])
  }

  lemma {:induction false} PutSorted(kids: seq<Branch>, c: char, node: Trie)
    requires Sorted(kids)
    ensures Sorted(Put(kids, c, node))
  {
    if kids != [] && kids[0].key < c {
      PutSorted(kids[1..], c, node);
      var r := Put(kids[1..], c, node);
      forall i | 0 <= i < |r| ensures kids[0].key < r[i].key {
        assert r[i] in r;
      }
    }
  }

  lemma {:induction false} PutIs(kids: seq<Branch>, c: char, node: Trie, d: char)
    requires Sorted(kids)
    ensures NodeAt(Put(kids, c, node), d) == if d == c then Some(node) else NodeAt(kids, d)
  {
    if kids != [] {
      if kids[0].key < c {
        PutIs(kids[1..], c, node, d);
      } else {
        assert ([Branch(c, node)] + kids)[1..] == kids && ([Branch(c, node)] + kids[1..])[1..] == kids[1..];
      }
    } else {
      assert ([Branch(c, node)] + kids)[1..] == kids;
    }
  }

  lemma {:induction false} InsertOrdered(t: Trie, w: string)
    requires Ordered(t)
    ensures Ordered(Insert(t, w))
    ensures w != [] || t.kids == [] ==> LeafIsWord(Insert(t, w))
    decreases |w|
  {
    if w != [] {
      var child := NodeAt(t.kids, w[0]);
      var under := if child.Some? then child.value else Node(false, []);
      if child.Some? {
        NodeAtIsKid(t.kids, w[0]);
      }
      InsertOrdered(under, w[1..]);
      PutSorted(t.kids, w[0], Insert(under, w[1..]));
      UnderIsWord(under, w[1..]);
    }
  }

  lemma UnderIsWord(t: Trie, w: string)
    requires LeafIsWord(t) || t == Node(false, [])
    ensures LeafIsWord(Insert(t, w))
  {
  }

  lemma {:induction false} InsertHas(t: Trie, v: string, w: string)
    requires Ordered(t)
    ensures Has(Insert(t, v), w) <==> Has(t, w) || w == v
    decreases |v|
  {
    if v != [] && w != [] {
      var child := NodeAt(t.kids, v[0]);
      var under := if child.Some? then child.value else Node(false, []);
      if child.Some? {
        NodeAtIsKid(t.kids, v[0]);
      }
      PutIs(t.kids, v[0], Insert(under, v[1..]), w[0]);
      InsertHas(under, v[1..], w[1..]);
      EmptyHas(w[1..]);
      assert w == v <==> w[0] == v[0] && w[1..] == v[1..];
    }
  }

  lemma EmptyHas(w: string)
    ensures !Has(Node(false, []), w)
  {
  }

  lemma {:induction false} FromWordsIs(words: seq<string>, w: string)
    ensures Ordered(FromWords(words))
    ensures Has(FromWords(words), w) <==> w in words
  {
    if words != [] {
      var init, last := words[..|words| - 1], words[|words| - 1];
      FromWordsIs(init, w);
      InsertOrdered(FromWords(init), last);
      InsertHas(FromWords(init), last, w);
      assert words == init + [last];
    } else {
      EmptyHas(w);
    }
  }

  // ---------------------------------------------------------------------------
  // The regex and how it matches.

  datatype Regex = Empty | Lit(c: char) | Cat(first: Regex, second: Regex) | Alt(branches: seq<Regex>)
    | Opt(body: Regex)

  function Build(t: Trie): Regex
    decreases t, 0
  {
    var branches := BuildAll(t.kids);
    if branches == [] then Empty
    else
      var body := if |branches| == 1 then branches[0] else Alt(branches);
      if t.word then Opt(body) else body
  }

  function BuildAll(kids: seq<Branch>): (r: seq<Regex>)
    ensures |r| == |kids|
    decreases kids
  {
    if kids == [] then [] else [BuildBranch(kids[0])] + BuildAll(kids[1..])
  }

  function BuildBranch(b: Branch): Regex
    decreases b
  {
    Cat(Lit(b.key), Build(b.node))
  }

  /** The lengths a backtracking matcher tries at the start of s, in its order: the first is the
      match. */
  function Matches(r: Regex, s: string): (m: seq<nat>)
    ensures forall i :: 0 <= i < |m| ==> m[i] <= |s|
    decreases r, 1, 0
  {
    match r
    case Empty => [0]
    case Lit(c) => if s != [] && s[0] == c then [1] else []
    case Cat(a, b) => Continue(b, s, Matches(a, s))
    case Alt(bs) => MatchesAny(bs, s)
    case Opt(b) => Matches(b, s) + [0]
  }

  function Continue(b: Regex, s: string, ends: seq<nat>): (m: seq<nat>)
    requires forall i :: 0 <= i < |ends| ==> ends[i] <= |s|
    ensures forall i :: 0 <= i < |m| ==> m[i] <= |s|
    decreases b, 2, |ends|
  {
    if ends == [] then [] else Shifted(ends[0], Matches(b, s[ends[0]..])) + Continue(b, s, ends[1..])
  }

  function MatchesAny(bs: seq<Regex>, s: string): (m: seq<nat>)
    ensures forall i :: 0 <= i < |m| ==> m[i] <= |s|
    decreases bs, 0, 0
  {
    if bs == [] then [] else Matches(bs[0], s) + MatchesAny(bs[1..], s)
  }

  function Shifted(n: nat, m: seq<nat>): (r: seq<nat>)
    ensures |r| == |m| && forall i :: 0 <= i < |m| ==> r[i] == n + m[i]
  {
    seq(|m|, i requires 0 <= i < |m| => n + m[i])
  }

  /** The lengths of the trie's words that s starts with, longest first. */
  function PrefixWords(t: Trie, s: string): seq<nat>
    decreases |s|
  {
    (if s == [] || NodeAt(t.kids, s[0]).None? then []
     else Shifted(1, PrefixWords(NodeAt(t.kids, s[0]).value, s[1..])))
    + if t.word then [0] else []
  }

  /** The first n characters of s are a word. */
  predicate HasPrefix(t: Trie, s: string, n: nat)
    decreases n
  {
    if n == 0 then t.word
    else s != [] && NodeAt(t.kids, s[0]).Some? && HasPrefix(NodeAt(t.kids, s[0]).value, s[1..], n - 1)
  }

  lemma {:induction false} HasPrefixIs(t: Trie, w: string, rest: string)
    ensures HasPrefix(t, w + rest, |w|) <==> Has(t, w)
    decreases |w|
  {
    if w != [] && NodeAt(t.kids, w[0]).Some? {
      assert (w + rest)[1..] == w[1..] + rest;
      HasPrefixIs(NodeAt(t.kids, w[0]).value, w[1..], rest);
    }
  }

  lemma {:induction false} PrefixInBounds(t: Trie, s: string, n: nat)
    ensures HasPrefix(t, s, n) ==> n <= |s|
    decreases n
  {
    if n > 0 && s != [] && NodeAt(t.kids, s[0]).Some? {
      PrefixInBounds(NodeAt(t.kids, s[0]).value, s[1..], n - 1);
    }
  }

  lemma ConcatHas(a: seq<nat>, b: seq<nat>, n: nat)
    ensures n in a + b <==> n in a || n in b
  {
  }

  lemma {:induction false} PrefixWordsAre(t: Trie, s: string, n: nat)
    ensures n in PrefixWords(t, s) <==> HasPrefix(t, s, n)
    decreases |s|
  {
    var own := if t.word then [0] else [];
    if s == [] || NodeAt(t.kids, s[0]).None? {
      ConcatHas([], own, n);
      assert n in own <==> n == 0 && t.word;
    } else {
      var child := NodeAt(t.kids, s[0]).value;
      ConcatHas(Shifted(1, PrefixWords(child, s[1..])), own, n);
      ShiftedHas(1, PrefixWords(child, s[1..]), n);
      assert n in own <==> n == 0 && t.word;
      if n > 0 {
        PrefixWordsAre(child, s[1..], n - 1);
      }
    }
  }

  lemma ShiftedHas(k: nat, m: seq<nat>, n: nat)
    ensures n in Shifted(k, m) <==> n >= k && n - k in m
  {
    if n >= k && n - k in m {
      var i :| 0 <= i < |m| && m[i] == n - k;
      assert Shifted(k, m)[i] == n;
    }
  }

  ghost predicate Descending(m: seq<nat>) {
    forall i, j :: 0 <= i < j < |m| ==> m[i] > m[j]
  }

  lemma {:induction false} LongestFirst(t: Trie, s: string)
    ensures Descending(PrefixWords(t, s))
    decreases |s|
  {
    if s != [] && NodeAt(t.kids, s[0]).Some? {
      LongestFirst(NodeAt(t.kids, s[0]).value, s[1..]);
    }
  }

  /** What one branch matches. */
  lemma BranchMatches(b: Branch, s: string)
    ensures Matches(BuildBranch(b), s)
            == if s != [] && s[0] == b.key then Shifted(1, Matches(Build(b.node), s[1..])) else []
  {
    if s != [] && s[0] == b.key {
      assert Matches(Lit(b.key), s) == [1];
      assert Continue(Build(b.node), s, [1][1..]) == [];
    } else {
      assert Matches(Lit(b.key), s) == [];
    }
  }

  /** Only the branch of the first character can match. */
  lemma {:induction false} BranchesMatch(kids: seq<Branch>, s: string)
    requires Sorted(kids)
    ensures MatchesAny(BuildAll(kids), s) ==
            if s != [] && NodeAt(kids, s[0]).Some?
              then Shifted(1, Matches(Build(NodeAt(kids, s[0]).value), s[1..])) else []
  {
    if kids != [] {
      BranchesMatch(kids[1..], s);
      BranchMatches(kids[0], s);
      assert BuildAll(kids)[0] == BuildBranch(kids[0]) && BuildAll(kids)[1..] == BuildAll(kids[1..]);
      if s != [] && s[0] == kids[0].key {
        NoneLeft(kids[1..], s[0]);
      }
    }
  }

  lemma {:induction false} NoneLeft(kids: seq<Branch>, c: char)
    requires forall i :: 0 <= i < |kids| ==> kids[i].key > c
    ensures NodeAt(kids, c).None?
  {
    if kids != [] {
      NoneLeft(kids[1..], c);
    }
  }

  lemma BuildMatches(t: Trie, s: string)
    requires t.kids != []
    ensures Matches(Build(t), s) == MatchesAny(BuildAll(t.kids), s) + if t.word then [0] else []
  {
    var branches := BuildAll(t.kids);
    if |branches| == 1 {
      assert MatchesAny(branches[1..], s) == [];
    }
  }

  /** The regex tries exactly the words that s starts with, the longest first. */
  lemma {:induction false} PatternMatches(t: Trie, s: string)
    requires Ordered(t) && (t.kids != [] || t.word)
    ensures Matches(Build(t), s) == PrefixWords(t, s)
    decreases |s|
  {
    if t.kids != [] {
      BuildMatches(t, s);
      BranchesMatch(t.kids, s);
      if s != [] && NodeAt(t.kids, s[0]).Some? {
        var child := NodeAt(t.kids, s[0]).value;
        NodeAtIsKid(t.kids, s[0]);
        PatternMatches(child, s[1..]);
      }
    }
  }

  /** The length of the pattern's match at the start of s, if there is one. */
  function MatchLength(words: seq<string>, s: string): (n: Option<nat>)
    ensures n.Some? ==> n.value <= |s|
  {
    var m := Matches(Build(FromWords(words)), s);
    if m == [] then None else Some(m[0])
  }

  /** The pattern matches the longest of the words that s starts with, or nothing if s starts
      with none of them. */
  lemma LongestWord(words: seq<string>, s: string, w: string)
    requires words != []
    ensures match MatchLength(words, s)
            case None => !(w in words && w <= s)
            case Some(n) => n <= |s| && s[..n] in words && (w in words && w <= s ==> |w| <= n)
  {
    var t := FromWords(words);
    SomeWord(words);
    PatternMatches(t, s);
    LongestFirst(t, s);
    if w in words && w <= s {
      WordTried(words, s, w);
    }
    if PrefixWords(t, s) != [] {
      TriedIsWord(words, s, PrefixWords(t, s)[0]);
    }
  }

  lemma WordTried(words: seq<string>, s: string, w: string)
    requires w in words && w <= s
    ensures |w| in PrefixWords(FromWords(words), s)
  {
    FromWordsIs(words, w);
    HasPrefixIs(FromWords(words), w, s[|w|..]);
    assert s == w + s[|w|..];
    PrefixWordsAre(FromWords(words), s, |w|);
  }

  lemma TriedIsWord(words: seq<string>, s: string, n: nat)
    requires n in PrefixWords(FromWords(words), s)
    ensures n <= |s| && s[..n] in words
  {
    PrefixWordsAre(FromWords(words), s, n);
    PrefixInBounds(FromWords(words), s, n);
    HasPrefixIs(FromWords(words), s[..n], s[n..]);
    assert s == s[..n] + s[n..];
    FromWordsIs(words, s[..n]);
  }

  lemma SomeWord(words: seq<string>)
    requires words != []
    ensures Ordered(FromWords(words)) && (FromWords(words).kids != [] || FromWords(words).word)
  {
    FromWordsIs(words, words[0]);
    FromWordsIs(words[..|words| - 1], []);
  }
}
