/**
  The vocabulary of the word-embedding example: the distinct tokens of the
  corpus are numbered in the order the token set happens to list them,
  giving a word-to-id map and its inverse, and the corpus is rewritten as
  ids.

  The order in which a set is listed is not fixed, so every function here
  takes `tokens`, an arbitrary listing of the distinct corpus words with no
  word twice, and every lemma holds for any such listing.
 */
module Vocabulary {

  /** No element of `s` occurs twice. */
  predicate Distinct<T(==)>(s: seq<T>)
  {
    forall i, j :: 0 <= i < j < |s| ==> s[i] != s[j]
  }

  /** The distinct words of the corpus (`set(corpus)`). */
  function TokenSet<T(==)>(corpus: seq<T>): (tokens: set<T>)
    ensures forall w :: w in corpus ==> w in tokens
    ensures forall w :: w in tokens ==> w in corpus
  {
    set w | w in corpus
  }

  /** `tokens` lists every word of the corpus exactly once, and nothing else. */
  predicate ListsTokens<T(==)>(tokens: seq<T>, corpus: seq<T>)
  {
    Distinct(tokens) && TokenSet(tokens) == TokenSet(corpus)
  }

  /** `word2id`: each listed word mapped to its position in the listing. */
  function Word2Id<T(==)>(tokens: seq<T>): (word2id: map<T, nat>)
    requires Distinct(tokens)
    ensures forall w :: w in tokens ==> w in word2id
    ensures forall w :: w in word2id ==> word2id[w] < |tokens| && tokens[word2id[w]] == w
  {
    map i: nat | i < |tokens| :: tokens[i] := i
  }

  /** `id2word`: each position of the listing mapped to the word listed there. */
  function Id2Word<T>(tokens: seq<T>): (id2word: map<nat, T>)
    ensures forall i: nat :: i in id2word <==> i < |tokens|
    ensures forall i: nat :: i in id2word ==> id2word[i] == tokens[i]
  {
    map i: nat | i < |tokens| :: tokens[i]
  }

  /**
    Every element of `s` looked up in `m`. With `word2id` this is
    `corpus_ids`; with `id2word` it turns ids back into words.
   */
  function Lookup<K, V>(s: seq<K>, m: map<K, V>): (r: seq<V>)
    requires forall j :: 0 <= j < |s| ==> s[j] in m
    ensures |r| == |s|
  {
    seq(|s|, j requires 0 <= j < |s| => m[s[j]])
  }

  // ---------------------------------------------------------------------
  // Counting distinct words

  /** A list without repetitions has as many distinct elements as entries. */
  lemma {:induction false} DistinctCount<T>(s: seq<T>)
    requires Distinct(s)
    ensures |TokenSet(s)| == |s|
  {
    if s != [] {
      var init := s[..|s| - 1];
      assert TokenSet(s) == TokenSet(init) + {s[|s| - 1]};
      DistinctCount(init);
    }
  }

  /** A list has at most as many distinct elements as entries. */
  lemma {:induction false} TokenSetBound<T>(s: seq<T>)
    ensures |TokenSet(s)| <= |s|
  {
    if s != [] {
      var init := s[..|s| - 1];
      assert TokenSet(s) == TokenSet(init) + {s[|s| - 1]};
      TokenSetBound(init);
    }
  }

  /**
    `nb_tokens` is the length of any listing of the token set, and never
    exceeds `corpus_len`.
   */
  lemma TokenCount<T>(tokens: seq<T>, corpus: seq<T>)
    requires ListsTokens(tokens, corpus)
    ensures |TokenSet(corpus)| == |tokens|
    ensures |tokens| <= |corpus|
  {
    DistinctCount(tokens);
    TokenSetBound(corpus);
  }

  // ---------------------------------------------------------------------
  // The two maps

  /** Every corpus word is a key of `word2id`, and nothing else is. */
  lemma Word2IdKeys<T>(tokens: seq<T>, corpus: seq<T>)
    requires ListsTokens(tokens, corpus)
    ensures Word2Id(tokens).Keys == TokenSet(corpus)
  {
    var w2i := Word2Id(tokens);
    forall w | w in TokenSet(corpus)
      ensures w in w2i
    {
      assert w in TokenSet(tokens);
      var i :| 0 <= i < |tokens| && tokens[i] == w;
      assert tokens[i] in w2i;
    }
  }

  /** The ids are exactly `0 .. nb_tokens - 1`. */
  lemma Id2WordKeys<T>(tokens: seq<T>, corpus: seq<T>)
    requires ListsTokens(tokens, corpus)
    ensures forall i: nat :: i in Id2Word(tokens) <==> i < |TokenSet(corpus)|
  {
    TokenCount(tokens, corpus);
  }

  /** `word2id` and `id2word` undo each other, in both directions. */
  lemma MapsInverse<T>(tokens: seq<T>)
    requires Distinct(tokens)
    ensures forall w :: w in Word2Id(tokens) ==>
      Word2Id(tokens)[w] in Id2Word(tokens) && Id2Word(tokens)[Word2Id(tokens)[w]] == w
    ensures forall i :: i in Id2Word(tokens) ==>
      Id2Word(tokens)[i] in Word2Id(tokens) && Word2Id(tokens)[Id2Word(tokens)[i]] == i
  {
    var w2i, i2w := Word2Id(tokens), Id2Word(tokens);
    forall w | w in w2i
      ensures w2i[w] in i2w && i2w[w2i[w]] == w
    {
      var i :| 0 <= i < |tokens| && tokens[i] == w;
      assert w2i[tokens[i]] == i;
    }
  }

  // ---------------------------------------------------------------------
  // The corpus as ids

  /**
    Rewriting the corpus as ids loses nothing: every id is below
    `nb_tokens`, and `id2word` turns the ids back into the corpus.
   */
  lemma CorpusIdsDecode<T>(tokens: seq<T>, corpus: seq<T>)
    requires ListsTokens(tokens, corpus)
    ensures forall j :: 0 <= j < |corpus| ==> corpus[j] in Word2Id(tokens)
    ensures forall j :: 0 <= j < |corpus| ==>
      Lookup(corpus, Word2Id(tokens))[j] < |TokenSet(corpus)|
    ensures forall j :: 0 <= j < |corpus| ==> Lookup(corpus, Word2Id(tokens))[j] in Id2Word(tokens)
    ensures Lookup(Lookup(corpus, Word2Id(tokens)), Id2Word(tokens)) == corpus
  {
    Word2IdKeys(tokens, corpus);
    TokenCount(tokens, corpus);
    MapsInverse(tokens);
    var w2i, i2w := Word2Id(tokens), Id2Word(tokens);
    var ids := Lookup(corpus, w2i);
    forall j | 0 <= j < |corpus|
      ensures ids[j] < |tokens| && ids[j] in i2w && i2w[ids[j]] == corpus[j]
    {
      assert corpus[j] in TokenSet(tokens);
      assert ids[j] == w2i[corpus[j]];
    }
  }

  /**
    Whatever order the tokens are listed in, two corpus positions get the
    same id exactly when they hold the same word.
   */
  lemma CorpusIdsSameWord<T>(tokens: seq<T>, corpus: seq<T>, j: nat, k: nat)
    requires ListsTokens(tokens, corpus)
    requires j < |corpus| && k < |corpus|
    ensures forall i :: 0 <= i < |corpus| ==> corpus[i] in Word2Id(tokens)
    ensures Lookup(corpus, Word2Id(tokens))[j] == Lookup(corpus, Word2Id(tokens))[k]
      <==> corpus[j] == corpus[k]
  {
    CorpusIdsDecode(tokens, corpus);
    MapsInverse(tokens);
  }
}
