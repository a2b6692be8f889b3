/**
 The word dictionary of `final.py`: a prefix tree whose nodes hold their children
 in a Python dict (so in insertion order), an end-of-word flag and the definition
 stored with the word that ends there.
 */
module Trie {
  import opened Wrappers

  /** One entry `char -> child` of a node's `children` dict. */
  datatype Edge = Edge(letter: char, child: Node)

  /** A `TrieNode`: children in insertion order, `is_end_of_word`, `definition`. */
  datatype Node = Node(kids: seq<Edge>, terminal: bool, definition: Option<string>)

  /** The `(found, definition)` pair that `search` returns. */
  datatype Lookup = Lookup(found: bool, definition: Option<string>)

  /** One entry of the path `search_word_in_trie` returns: a key and a definition. */
  datatype PathEntry = PathEntry(key: string, definition: Option<string>)

  /** A freshly constructed `TrieNode()`, and so the root of an empty trie. */
  const Root: Node := Node([], false, None)

  /** Position of the child reached by `c`, or -1 when `c not in node.children`. */
  function Find(kids: seq<Edge>, c: char): (i: int)
    ensures -1 <= i < |kids|
    ensures 0 <= i ==> kids[i].letter == c && forall j :: 0 <= j < i ==> kids[j].letter != c
    ensures i < 0 <==> forall j :: 0 <= j < |kids| ==> kids[j].letter != c
  {
    if |kids| == 0 then -1
    else if kids[0].letter == c then 0
    else
      var j := Find(kids[1..], c);
      if j < 0 then -1 else j + 1
  }

  /** `Trie.insert(word, definition)`: walk the word, creating missing children, then mark the end. */
  function Insert(t: Node, w: string, d: Option<string>): Node
    decreases |w|
  {
    if |w| == 0 then t.(terminal := true, definition := d)
    else
      var i := Find(t.kids, w[0]);
      if i < 0 then t.(kids := t.kids + [Edge(w[0], Insert(Root, w[1..], d))])
      else t.(kids := t.kids[i := Edge(w[0], Insert(t.kids[i].child, w[1..], d))])
  }

  /** `Trie.search(word)`: fail as soon as an edge is missing, else report the final node. */
  function Search(t: Node, w: string): Lookup
    decreases |w|
  {
    if |w| == 0 then Lookup(t.terminal, t.definition)
    else
      var i := Find(t.kids, w[0]);
      if i < 0 then Lookup(false, None) else Search(t.kids[i].child, w[1..])
  }

  /**
   What the insert-only construction keeps true of every node: a node no word ends
   at has no definition, and a node's children have distinct letters (dict keys).
   */
  ghost predicate Valid(t: Node) {
    && (!t.terminal ==> t.definition == None)
    && (forall i, j :: 0 <= i < j < |t.kids| ==> t.kids[i].letter != t.kids[j].letter)
    && (forall i :: 0 <= i < |t.kids| ==> Valid(t.kids[i].child))
  }

  /** The trie the game builds: `insert` each `(word, definition)` of the list in order. */
  function Build(entries: seq<(string, Option<string>)>): Node
  {
    if |entries| == 0 then Root
    else
      var last := entries[|entries| - 1];
      Insert(Build(entries[..|entries| - 1]), last.0, last.1)
  }

  /** Reference meaning of a list of insertions: the definition of the last entry for `v`, if any. */
  function LastDefinition(entries: seq<(string, Option<string>)>, v: string): Option<Option<string>>
  {
    if |entries| == 0 then None
    else if entries[|entries| - 1].0 == v then Some(entries[|entries| - 1].1)
    else LastDefinition(entries[..|entries| - 1], v)
  }

  /** `_get_all_words_recursive(node, current_word, words)`: pre-order, children in dict order. */
  function Collect(t: Node, prefix: string): seq<(string, Option<string>)>
    decreases t, 1
  {
    (if t.terminal then [(prefix, t.definition)] else []) + CollectKids(t, 0, prefix)
  }

  function CollectKids(t: Node, k: nat, prefix: string): seq<(string, Option<string>)>
    requires k <= |t.kids|
    decreases t, 0, |t.kids| - k
  {
    if k == |t.kids| then []
    else Collect(t.kids[k].child, prefix + [t.kids[k].letter]) + CollectKids(t, k + 1, prefix)
  }

  /** The words of a `get_all_words` list, without their definitions. */
  function Words(es: seq<(string, Option<string>)>): (ws: seq<string>)
    ensures |ws| == |es| && forall i :: 0 <= i < |es| ==> ws[i] == es[i].0
  {
    seq(|es|, i requires 0 <= i < |es| => es[i].0)
  }

  /** No word listed twice. */
  predicate UniqueWords(es: seq<(string, Option<string>)>) {
    Distinct(Words(es))
  }

  lemma UniqueWordsIff(es: seq<(string, Option<string>)>)
    ensures UniqueWords(es) <==> forall i, j :: 0 <= i < j < |es| ==> es[i].0 != es[j].0
  {
    var ws := Words(es);
    assert forall i :: 0 <= i < |es| ==> ws[i] == es[i].0;
  }

  /**
   `Trie.get_all_words()`: every stored word with its definition, each exactly once,
   and nothing that `search` would not find.
   */
  function GetAllWords(t: Node): (r: seq<(string, Option<string>)>)
    requires Valid(t)
    ensures UniqueWords(r)
    ensures forall e :: e in r <==> Search(t, e.0) == Lookup(true, e.1)
  {
    var r := Collect(t, []);
    CollectNoDup(t, []);
    forall e | e in r ensures Search(t, e.0) == Lookup(true, e.1) {
      CollectSound(t, [], e);
      assert e.0[0..] == e.0;
    }
    forall e: (string, Option<string>) | Search(t, e.0) == Lookup(true, e.1) ensures e in r {
      CollectComplete(t, e.0, []);
      assert [] + e.0 == e.0;
    }
    r
  }

  /** `search_word_in_trie(root, word)`: the lookup path, or None when the word is not stored. */
  function SearchPath(t: Node, w: string): (r: Option<seq<PathEntry>>)
    ensures r.Some? <==> Search(t, w).found
    ensures r.Some? ==> |r.value| == |w| + 1
    ensures r.Some? ==> forall i :: 0 <= i < |w| ==> r.value[i] == PathEntry([w[i]], Search(t, w[..i]).definition)
    ensures r.Some? ==> r.value[|w|] == PathEntry(w, Search(t, w).definition)
  {
    WalkSpec(t, w, w);
    Walk(t, w, w)
  }

  function Walk(t: Node, rest: string, word: string): Option<seq<PathEntry>>
    decreases |rest|
  {
    if |rest| == 0 then
      if t.terminal then Some([PathEntry(word, t.definition)]) else None
    else
      var i := Find(t.kids, rest[0]);
      if i < 0 then None
      else match Walk(t.kids[i].child, rest[1..], word)
        case None => None
        case Some(p) => Some([PathEntry([rest[0]], t.definition)] + p)
  }

  // ---------------------------------------------------------------------------
  // Lemmas

  lemma SearchRoot(v: string)
    ensures Search(Root, v) == Lookup(false, None)
  {
  }

  lemma FindAppend(kids: seq<Edge>, e: Edge, c: char)
    ensures Find(kids + [e], c) ==
      if Find(kids, c) >= 0 then Find(kids, c) else if e.letter == c then |kids| else -1
  {
    var all := kids + [e];
    var r := Find(all, c);
    var s := Find(kids, c);
    assert forall j :: 0 <= j < |kids| ==> all[j] == kids[j];
    if s >= 0 {
      assert all[s].letter == c;
      assert r == s;
    } else if e.letter == c {
      assert all[|kids|].letter == c;
    }
  }

  lemma FindUpdate(kids: seq<Edge>, i: nat, e: Edge, c: char)
    requires i < |kids| && e.letter == kids[i].letter
    ensures Find(kids[i := e], c) == Find(kids, c)
  {
    var r := Find(kids[i := e], c);
    var s := Find(kids, c);
    assert forall j :: 0 <= j < |kids| ==> kids[i := e][j].letter == kids[j].letter;
  }

  /** The letter at a child's position determines the child when the letters are distinct. */
  lemma FindUnique(kids: seq<Edge>, k: nat)
    requires k < |kids|
    requires forall i, j :: 0 <= i < j < |kids| ==> kids[i].letter != kids[j].letter
    ensures Find(kids, kids[k].letter) == k
  {
  }

  /**
   After `insert(w, d)`, `search(w)` returns `(True, d)`; every other string is looked up
   exactly as before (so a later insert of the same word replaces its definition).
   */
  lemma {:induction false} SearchInsert(t: Node, w: string, d: Option<string>, v: string)
    ensures Search(Insert(t, w, d), v) == if v == w then Lookup(true, d) else Search(t, v)
    decreases |w|, 1
  {
    var t' := Insert(t, w, d);
    if |w| == 0 {
      if |v| > 0 {
        assert t'.kids == t.kids;
      }
    } else if |v| > 0 {
      if Find(t.kids, w[0]) < 0 {
        SearchInsertNewChild(t, w, d, v);
      } else {
        SearchInsertOldChild(t, w, d, v);
      }
    }
  }

  /** Two non-empty strings with the same first letter are equal exactly when their tails are. */
  lemma SameHead(v: string, w: string)
    requires |v| > 0 && |w| > 0 && v[0] == w[0]
    ensures v == w <==> v[1..] == w[1..]
  {
    if v[1..] == w[1..] {
      assert v == [v[0]] + v[1..] && w == [w[0]] + w[1..];
    }
  }

  /** `SearchInsert` when the first letter of `w` starts a new child. */
  lemma {:induction false} SearchInsertNewChild(t: Node, w: string, d: Option<string>, v: string)
    requires |w| > 0 && |v| > 0 && Find(t.kids, w[0]) < 0
    ensures Search(Insert(t, w, d), v) == if v == w then Lookup(true, d) else Search(t, v)
    decreases |w|, 0
  {
    var t' := Insert(t, w, d);
    var c := v[0];
    var e := Edge(w[0], Insert(Root, w[1..], d));
    assert t'.kids == t.kids + [e];
    FindAppend(t.kids, e, c);
    if c == w[0] {
      assert Find(t'.kids, c) == |t.kids|;
      SearchInsert(Root, w[1..], d, v[1..]);
      SearchRoot(v[1..]);
      SameHead(v, w);
    }
  }

  /** `SearchInsert` when the first letter of `w` already leads to a child. */
  lemma {:induction false} SearchInsertOldChild(t: Node, w: string, d: Option<string>, v: string)
    requires |w| > 0 && |v| > 0 && Find(t.kids, w[0]) >= 0
    ensures Search(Insert(t, w, d), v) == if v == w then Lookup(true, d) else Search(t, v)
    decreases |w|, 0
  {
    var t' := Insert(t, w, d);
    var i := Find(t.kids, w[0]);
    var c := v[0];
    var e := Edge(w[0], Insert(t.kids[i].child, w[1..], d));
    assert t'.kids == t.kids[i := e];
    FindUpdate(t.kids, i, e, c);
    if c == w[0] {
      SearchInsert(t.kids[i].child, w[1..], d, v[1..]);
      SameHead(v, w);
    } else {
      assert v != w;
    }
  }

  lemma {:induction false} InsertValid(t: Node, w: string, d: Option<string>)
    requires Valid(t)
    ensures Valid(Insert(t, w, d))
    decreases |w|
  {
    if |w| > 0 {
      var i := Find(t.kids, w[0]);
      if i < 0 {
        InsertValid(Root, w[1..], d);
        var t' := Insert(t, w, d);
        assert t'.kids == t.kids + [Edge(w[0], Insert(Root, w[1..], d))];
      } else {
        InsertValid(t.kids[i].child, w[1..], d);
      }
    }
  }

  lemma {:induction false} BuildValid(entries: seq<(string, Option<string>)>)
    ensures Valid(Build(entries))
  {
    if |entries| > 0 {
      var last := entries[|entries| - 1];
      BuildValid(entries[..|entries| - 1]);
      InsertValid(Build(entries[..|entries| - 1]), last.0, last.1);
    }
  }

  /**
   Looking up a word in the trie built from a list of insertions finds it exactly when
   the list holds it, with the definition of its last insertion; any other string,
   a proper prefix or a string leaving the tree early alike, gives `(False, None)`.
   */
  lemma {:induction false} SearchBuild(entries: seq<(string, Option<string>)>, v: string)
    ensures Search(Build(entries), v) ==
      match LastDefinition(entries, v)
      case None => Lookup(false, None)
      case Some(d) => Lookup(true, d)
  {
    if |entries| == 0 {
      SearchRoot(v);
    } else {
      var last := entries[|entries| - 1];
      SearchInsert(Build(entries[..|entries| - 1]), last.0, last.1, v);
      if last.0 != v {
        SearchBuild(entries[..|entries| - 1], v);
      }
    }
  }

  /** The reference meaning agrees with membership: a word has a last definition iff it was inserted. */
  lemma {:induction false} LastDefinitionPresent(entries: seq<(string, Option<string>)>, v: string)
    ensures LastDefinition(entries, v).Some? <==> exists k :: 0 <= k < |entries| && entries[k].0 == v
  {
    if |entries| > 0 {
      var init := entries[..|entries| - 1];
      LastDefinitionPresent(init, v);
      if (exists k :: 0 <= k < |entries| && entries[k].0 == v) && entries[|entries| - 1].0 != v {
        var k :| 0 <= k < |entries| && entries[k].0 == v;
        assert init[k].0 == v;
      }
      if exists k :: 0 <= k < |init| && init[k].0 == v {
        var k :| 0 <= k < |init| && init[k].0 == v;
        assert entries[k].0 == v;
      }
    }
  }

  /** Every word collected under `prefix` extends it; the words from children `k..` extend it by one of their letters. */
  lemma {:induction false} CollectPrefix(t: Node, p: string)
    ensures forall e :: e in Collect(t, p) ==> |e.0| >= |p| && e.0[..|p|] == p
    decreases t, 1
  {
    CollectKidsPrefix(t, 0, p);
  }

  lemma {:induction false} CollectKidsPrefix(t: Node, k: nat, p: string)
    requires k <= |t.kids|
    ensures forall e :: e in CollectKids(t, k, p) ==>
      |e.0| > |p| && e.0[..|p|] == p && exists m :: k <= m < |t.kids| && e.0[|p|] == t.kids[m].letter
    decreases t, 0, |t.kids| - k
  {
    if k < |t.kids| {
      var q := p + [t.kids[k].letter];
      CollectPrefix(t.kids[k].child, q);
      CollectKidsPrefix(t, k + 1, p);
      forall e | e in Collect(t.kids[k].child, q)
        ensures |e.0| > |p| && e.0[..|p|] == p && e.0[|p|] == t.kids[k].letter
      {
        assert e.0[..|q|] == q;
        assert e.0[..|p|] == q[..|p|];
      }
    }
  }

  /** Every collected entry is one `search` finds, with the same definition. */
  lemma {:induction false} CollectSound(t: Node, p: string, e: (string, Option<string>))
    requires Valid(t) && e in Collect(t, p)
    ensures |e.0| >= |p| && e.0[..|p|] == p && Search(t, e.0[|p|..]) == Lookup(true, e.1)
    decreases t, 1
  {
    CollectPrefix(t, p);
    if !(t.terminal && e == (p, t.definition)) {
      if t.terminal {
        assert e in CollectKids(t, 0, p);
      }
      CollectKidsSound(t, 0, p, e);
    }
  }

  lemma {:induction false} CollectKidsSound(t: Node, k: nat, p: string, e: (string, Option<string>))
    requires Valid(t) && k <= |t.kids| && e in CollectKids(t, k, p)
    ensures |e.0| > |p| && e.0[..|p|] == p && Search(t, e.0[|p|..]) == Lookup(true, e.1)
    decreases t, 0, |t.kids| - k
  {
    var c := t.kids[k].letter;
    var q := p + [c];
    if e in Collect(t.kids[k].child, q) {
      CollectSound(t.kids[k].child, q, e);
      assert e.0[..|q|] == q;
      assert e.0[..|p|] == q[..|p|];
      var v := e.0[|p|..];
      assert v[0] == c;
      FindUnique(t.kids, k);
      assert v[1..] == e.0[|q|..];
    } else {
      CollectKidsSound(t, k + 1, p, e);
    }
  }

  /** Every word `search` finds is collected, prefixed by the path walked so far. */
  lemma {:induction false} CollectComplete(t: Node, v: string, p: string)
    requires Search(t, v).found
    ensures (p + v, Search(t, v).definition) in Collect(t, p)
    decreases |v|
  {
    if |v| == 0 {
      assert p + v == p;
    } else {
      var i := Find(t.kids, v[0]);
      var q := p + [v[0]];
      CollectComplete(t.kids[i].child, v[1..], q);
      assert q + v[1..] == p + v;
      CollectKidsContains(t, 0, i, p);
    }
  }

  lemma {:induction false} CollectKidsContains(t: Node, k: nat, i: nat, p: string)
    requires k <= i < |t.kids|
    ensures forall e :: e in Collect(t.kids[i].child, p + [t.kids[i].letter]) ==> e in CollectKids(t, k, p)
    decreases i - k
  {
    if k < i {
      CollectKidsContains(t, k + 1, i, p);
    }
  }

  /** Two duplicate-free lists with no word in common join into a duplicate-free list. */
  lemma UniqueAppend(a: seq<(string, Option<string>)>, b: seq<(string, Option<string>)>)
    requires UniqueWords(a) && UniqueWords(b)
    requires forall e, f :: e in a && f in b ==> e.0 != f.0
    ensures UniqueWords(a + b)
  {
    UniqueWordsIff(a);
    UniqueWordsIff(b);
    var all := a + b;
    forall i, j | 0 <= i < j < |all| ensures all[i].0 != all[j].0 {
      if j < |a| {
        assert all[i] == a[i] && all[j] == a[j];
      } else if i < |a| {
        assert all[i] in a && all[j] in b;
      } else {
        assert all[i] == b[i - |a|] && all[j] == b[j - |a|];
      }
    }
    UniqueWordsIff(all);
  }

  /** The same word is never collected twice. */
  lemma {:induction false} CollectNoDup(t: Node, p: string)
    requires Valid(t)
    ensures UniqueWords(Collect(t, p))
    decreases t, 1
  {
    CollectKidsNoDup(t, 0, p);
    CollectKidsPrefix(t, 0, p);
    var own: seq<(string, Option<string>)> := if t.terminal then [(p, t.definition)] else [];
    UniqueWordsIff(own);
    UniqueAppend(own, CollectKids(t, 0, p));
  }

  lemma {:induction false} CollectKidsNoDup(t: Node, k: nat, p: string)
    requires Valid(t) && k <= |t.kids|
    ensures UniqueWords(CollectKids(t, k, p))
    decreases t, 0, |t.kids| - k
  {
    if k < |t.kids| {
      var c := t.kids[k].letter;
      var q := p + [c];
      var first := Collect(t.kids[k].child, q);
      var rest := CollectKids(t, k + 1, p);
      CollectNoDup(t.kids[k].child, q);
      CollectKidsNoDup(t, k + 1, p);
      CollectPrefix(t.kids[k].child, q);
      CollectKidsPrefix(t, k + 1, p);
      forall e, f | e in first && f in rest ensures e.0 != f.0 {
        assert e.0[..|q|] == q;
        assert e.0[|p|] == c;
        var m :| k + 1 <= m < |t.kids| && f.0[|p|] == t.kids[m].letter;
      }
      UniqueAppend(first, rest);
    }
  }

  /** The generalised path property of `Walk`, from any node and for any suffix still to read. */
  lemma {:induction false} WalkSpec(t: Node, rest: string, word: string)
    ensures Walk(t, rest, word).Some? <==> Search(t, rest).found
    ensures Walk(t, rest, word).Some? ==>
      var p := Walk(t, rest, word).value;
      && |p| == |rest| + 1
      && (forall i :: 0 <= i < |rest| ==> p[i] == PathEntry([rest[i]], Search(t, rest[..i]).definition))
      && p[|rest|] == PathEntry(word, Search(t, rest).definition)
    decreases |rest|
  {
    if |rest| > 0 {
      var k := Find(t.kids, rest[0]);
      if k >= 0 {
        var child := t.kids[k].child;
        WalkSpec(child, rest[1..], word);
        if Walk(child, rest[1..], word).Some? {
          var p' := Walk(child, rest[1..], word).value;
          var p := Walk(t, rest, word).value;
          forall i | 0 <= i < |rest| ensures p[i] == PathEntry([rest[i]], Search(t, rest[..i]).definition) {
            if i > 0 {
              assert rest[..i][1..] == rest[1..][..i - 1];
            }
          }
        }
      }
    }
  }
}
