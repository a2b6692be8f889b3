/**
 The word dictionary of `wordsearch.py`: the same prefix tree as in `final.py`,
 walked the same way, but storing no definition. It is the definition-carrying
 trie with every definition left at `None`.
 */
module PlainTrie {
  import opened Wrappers
  import Trie

  /** `Trie.insert(word)`. */
  function Insert(t: Trie.Node, w: string): Trie.Node {
    Trie.Insert(t, w, None)
  }

  /** `Trie.search(word)`: only the end-of-word flag of the node reached. */
  function Search(t: Trie.Node, w: string): bool {
    Trie.Search(t, w).found
  }

  /** The game's loop `for word, _ in chosen_word_list: trie.insert(word)`. */
  function Build(words: seq<string>): Trie.Node {
    if |words| == 0 then Trie.Root
    else Insert(Build(words[..|words| - 1]), words[|words| - 1])
  }

  /** `Trie.get_all_words()`: each stored word exactly once, and only stored words. */
  function GetAllWords(t: Trie.Node): (r: seq<string>)
    requires Trie.Valid(t)
    ensures Distinct(r)
    ensures forall w :: w in r <==> Search(t, w)
  {
    var c := Trie.GetAllWords(t);
    var r := Trie.Words(c);
    forall w | w in r ensures Search(t, w) {
      var i :| 0 <= i < |r| && r[i] == w;
      assert c[i] in c;
    }
    forall w | Search(t, w) ensures w in r {
      var e := (w, Trie.Search(t, w).definition);
      assert e in c;
      var i :| 0 <= i < |c| && c[i] == e;
      assert r[i] == w;
    }
    r
  }

  lemma {:induction false} BuildValid(words: seq<string>)
    ensures Trie.Valid(Build(words))
  {
    if |words| > 0 {
      BuildValid(words[..|words| - 1]);
      Trie.InsertValid(Build(words[..|words| - 1]), words[|words| - 1], None);
    }
  }

  /** `search(w)` on the built trie is true exactly for the inserted words (prefixes included only if inserted). */
  lemma {:induction false} SearchBuild(words: seq<string>, v: string)
    ensures Search(Build(words), v) <==> v in words
  {
    if |words| > 0 {
      var init := words[..|words| - 1];
      Trie.SearchInsert(Build(init), words[|words| - 1], None, v);
      SearchBuild(init, v);
      assert words == init + [words[|words| - 1]];
    } else {
      Trie.SearchRoot(v);
    }
  }

  /** `get_all_words` on the built trie lists every inserted word, and each only once. */
  lemma AllWordsOfBuild(words: seq<string>)
    ensures Trie.Valid(Build(words))
    ensures Distinct(GetAllWords(Build(words)))
    ensures forall w :: w in GetAllWords(Build(words)) <==> w in words
  {
    BuildValid(words);
    forall w ensures w in GetAllWords(Build(words)) <==> w in words {
      SearchBuild(words, w);
    }
  }
}
