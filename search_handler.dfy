/**
 * `SearchHandler`: the trie index over the catalogue and the `/search`
 * command that looks a query up in it.  An item is indexed under its whole
 * name, lower-cased, and under every word of its lower-cased description
 * that is longer than three characters; a query is lower-cased and trimmed
 * and answered with at most ten prefix matches.
 */
module SearchHandling {
  import opened Common
  import opened Text
  import opened Catalog
  import opened TrieNodes
  import opened TrieCollect
  import opened Tries

  /** The words of a description `buildIndex` keeps: those longer than three characters, in order. */
  function LongWords(words: seq<string>): seq<string> {
    if words == [] then []
    else LongWords(words[..|words| - 1]) + (if |words[|words| - 1]| > 3 then [words[|words| - 1]] else [])
  }

  /** `eq.description.toLowerCase().split(' ')`, kept when longer than three characters. */
  function Keywords(description: string): seq<string> {
    LongWords(Split(Lower(description), ' '))
  }

  /** The keys `buildIndex` inserts an item under, in order: none for an item with no name. */
  function IndexKeys(eq: Equipment): seq<string> {
    if eq.name == [] then [] else [Lower(eq.name)] + Keywords(eq.description)
  }

  /** One `trie.insert(key, eq)` of `buildIndex`. */
  datatype Insertion = Insertion(key: string, item: Equipment)

  /** The insertions for one item. */
  function KeyedBy(keys: seq<string>, eq: Equipment): (r: seq<Insertion>)
    ensures |r| == |keys| && forall i {:trigger r[i]} :: 0 <= i < |r| ==> r[i] == Insertion(keys[i], eq)
  {
    seq(|keys|, i requires 0 <= i < |keys| => Insertion(keys[i], eq))
  }

  /** Every insertion `buildIndex` makes for a list of items, in order. */
  function Inserts(items: seq<Equipment>): seq<Insertion> {
    if items == [] then []
    else Inserts(items[..|items| - 1]) + KeyedBy(IndexKeys(items[|items| - 1]), items[|items| - 1])
  }

  /** The keys of some insertions. */
  function KeySet(done: seq<Insertion>): set<string> {
    if done == [] then {} else KeySet(done[..|done| - 1]) + {done[|done| - 1].key}
  }

  /** A key is among the keys exactly when some insertion is under it. */
  lemma {:induction false} KeySetIff(done: seq<Insertion>, key: string)
    ensures key in KeySet(done) <==> exists i :: 0 <= i < |done| && done[i].key == key
  {
    if done != [] {
      var front := done[..|done| - 1];
      KeySetIff(front, key);
      if exists i :: 0 <= i < |front| && front[i].key == key {
        var i :| 0 <= i < |front| && front[i].key == key;
        assert done[i] == front[i];
      }
      if exists i :: 0 <= i < |done| && done[i].key == key {
        var i :| 0 <= i < |done| && done[i].key == key;
        if i < |front| {
          assert front[i] == done[i];
        }
      }
    }
  }

  /** The item of the last insertion under `key`, which is what the trie holds for it. */
  function LastFor(done: seq<Insertion>, key: string): Option<Equipment> {
    if done == [] then None
    else if done[|done| - 1].key == key then Some(done[|done| - 1].item)
    else LastFor(done[..|done| - 1], key)
  }

  /** There is a last item for a key exactly when something was inserted under it. */
  lemma {:induction false} LastForSome(done: seq<Insertion>, key: string)
    ensures LastFor(done, key).None? <==> forall i :: 0 <= i < |done| ==> done[i].key != key
  {
    if done != [] {
      var n := |done| - 1;
      LastForSome(done[..n], key);
      assert forall i :: 0 <= i < n ==> done[i] == done[..n][i];
    }
  }

  /** The last item for a key is that of an insertion under the key that no later insertion under it follows. */
  lemma {:induction false} LastForLast(done: seq<Insertion>, key: string)
    requires LastFor(done, key).Some?
    ensures exists i ::
      0 <= i < |done| && done[i] == Insertion(key, LastFor(done, key).value) && (forall j :: i < j < |done| ==> done[j].key != key)
  {
    var n := |done| - 1;
    if done[n].key == key {
      assert done[n] == Insertion(key, LastFor(done, key).value);
    } else {
      var front := done[..n];
      LastForLast(front, key);
      var i :| 0 <= i < n && front[i] == Insertion(key, LastFor(front, key).value) &&
        (forall j :: i < j < n ==> front[j].key != key);
      assert done[i] == front[i];
      forall j | i < j < |done| ensures done[j].key != key {
        if j < n {
          assert done[j] == front[j];
        }
      }
    }
  }

  /** Every key inserted so far is a stored word whose data is the item inserted last under it. */
  ghost predicate Latest(nodes: Nodes<Equipment>, done: seq<Insertion>) {
    forall e :: e in done ==>
      e.key in Words(nodes) && LastFor(done, e.key).Some? && nodes[e.key].data == Some(Given(LastFor(done, e.key).value))
  }

  /** The trie holds the insertions `done`, then those of one item under `keys`, on top of what `start` held. */
  ghost predicate Indexed(nodes: Nodes<Equipment>, start: Nodes<Equipment>, done: seq<Insertion>, keys: seq<string>, eq: Equipment) {
    Words(nodes) == Words(start) + KeySet(KeyedBy(keys, eq)) && Latest(nodes, done + KeyedBy(keys, eq))
  }

  /** The trie holds the insertions of `items` on top of what `start` held. */
  ghost predicate Built(nodes: Nodes<Equipment>, start: Nodes<Equipment>, items: seq<Equipment>) {
    Words(nodes) == Words(start) + KeySet(Inserts(items)) && Latest(nodes, Inserts(items))
  }

  /** The characters of every piece of a split come from the string. */
  lemma {:induction false} SplitPiecesFrom(s: string, sep: char)
    ensures forall k, i :: 0 <= k < |Split(s, sep)| && 0 <= i < |Split(s, sep)[k]| ==> Split(s, sep)[k][i] in s
  {
    if s != [] {
      SplitPiecesFrom(s[1..], sep);
      var rest := Split(s[1..], sep);
      forall k, i | 0 <= k < |Split(s, sep)| && 0 <= i < |Split(s, sep)[k]| ensures Split(s, sep)[k][i] in s {
        if s[0] != sep && k == 0 && i > 0 {
          assert Split(s, sep)[0][i] == rest[0][i - 1];
        } else if s[0] != sep && k > 0 {
          assert Split(s, sep)[k] == rest[k];
        } else if s[0] == sep {
          assert Split(s, sep)[k] == rest[k - 1];
        }
      }
    }
  }

  /** A string none of whose characters is an upper-case letter is its own lower case. */
  lemma LowerOfLower(w: string)
    requires forall i :: 0 <= i < |w| ==> !IsUpper(w[i])
    ensures Lower(w) == w
  {
  }

  /** The words kept are exactly those longer than three characters. */
  lemma {:induction false} LongWordsIff(words: seq<string>)
    ensures forall w :: w in LongWords(words) <==> w in words && |w| > 3
  {
    if words != [] {
      var front := words[..|words| - 1];
      LongWordsIff(front);
      assert words == front + [words[|words| - 1]];
    }
  }

  /** The pieces of a lower-cased text are lower-case already. */
  lemma PiecesLower(s: string)
    ensures forall w :: w in Split(Lower(s), ' ') ==> Lower(w) == w
  {
    var words := Split(Lower(s), ' ');
    SplitPiecesFrom(Lower(s), ' ');
    forall w | w in words ensures Lower(w) == w {
      var n :| 0 <= n < |words| && words[n] == w;
      forall i | 0 <= i < |w| ensures !IsUpper(w[i]) {
        assert words[n][i] in Lower(s);
      }
      LowerOfLower(w);
    }
  }

  /**
   * What an item is indexed under: nothing when it has no name; otherwise
   * its whole lower-cased name, whatever its length, and exactly the pieces
   * of its lower-cased description, split on single spaces, that are longer
   * than three characters.  Every key is already lower-case and non-empty.
   */
  lemma IndexKeysIff(eq: Equipment)
    ensures eq.name == [] ==> IndexKeys(eq) == []
    ensures eq.name != [] ==> forall k :: k in IndexKeys(eq) <==>
      k == Lower(eq.name) || (k in Split(Lower(eq.description), ' ') && |k| > 3)
    ensures forall k :: k in IndexKeys(eq) ==> k != [] && Lower(k) == k
  {
    if eq.name != [] {
      LowerIdempotent(eq.name);
      LongWordsIff(Split(Lower(eq.description), ' '));
      PiecesLower(eq.description);
    }
  }

  /** A description that is missing (empty) adds no key. */
  lemma NoDescriptionNoKeywords()
    ensures Keywords([]) == []
  {
    assert Split(Lower([]), ' ') == [[]];
  }

  /** A key last inserted within a run of insertions of one item leads to that item. */
  lemma {:induction false} LastInRun(done: seq<Insertion>, run: seq<Insertion>, key: string, eq: Equipment)
    requires Insertion(key, eq) in run && forall e :: e in run ==> e.item == eq
    ensures LastFor(done + run, key) == Some(eq)
    decreases |run|
  {
    var all := done + run;
    var last := run[|run| - 1];
    assert all[|all| - 1] == last && last in run;
    if last.key != key {
      var front := run[..|run| - 1];
      assert all[..|all| - 1] == done + front;
      assert Insertion(key, eq) in front;
      LastInRun(done, front, key, eq);
    }
  }

  /** When two items share a key, the key leads to the one inserted later. */
  lemma LaterItemWins(a: Equipment, b: Equipment, key: string)
    requires key in IndexKeys(a) && key in IndexKeys(b)
    ensures LastFor(Inserts([a, b]), key) == Some(b)
  {
    assert [a, b][..1] == [a];
    var run := KeyedBy(IndexKeys(b), b);
    var i :| 0 <= i < |IndexKeys(b)| && IndexKeys(b)[i] == key;
    assert run[i] == Insertion(key, b);
    LastInRun(Inserts([a]), run, key, b);
  }

  /** One more insertion, done the way `Trie.insert` stores it, keeps the trie in step with the insertions. */
  lemma {:induction false} LatestInsert(before: Nodes<Equipment>, after: Nodes<Equipment>, done: seq<Insertion>, key: string, eq: Equipment)
    requires Latest(before, done)
    requires Words(after) == Words(before) + {key}
    requires key in after && after[key].data == Some(Given(eq))
    requires forall q :: q in before && q != key ==> q in after && Grown(before[q], after[q])
    ensures Latest(after, done + [Insertion(key, eq)])
    ensures KeySet(done + [Insertion(key, eq)]) == KeySet(done) + {key}
  {
    var next := done + [Insertion(key, eq)];
    assert next[..|next| - 1] == done;
    forall e | e in next
      ensures e.key in Words(after) && LastFor(next, e.key).Some? && after[e.key].data == Some(Given(LastFor(next, e.key).value))
    {
      if e.key != key {
        assert e in done;
      }
    }
    assert Insertion(key, eq) in next;
  }

  /** The key of one insertion. */
  lemma KeySetOne(e: Insertion)
    ensures KeySet([e]) == {e.key}
  {
    assert [e][..0] == [];
  }

  /** One more key of the item, stored the way `Trie.insert` stores it. */
  lemma IndexedStep(before: Nodes<Equipment>, after: Nodes<Equipment>, start: Nodes<Equipment>,
                    done: seq<Insertion>, keys: seq<string>, key: string, eq: Equipment)
    requires Indexed(before, start, done, keys, eq)
    requires Words(after) == Words(before) + {key}
    requires key in after && after[key].data == Some(Given(eq))
    requires forall q :: q in before && q != key ==> q in after && Grown(before[q], after[q])
    ensures Indexed(after, start, done, keys + [key], eq)
  {
    var mine := KeyedBy(keys, eq);
    LatestInsert(before, after, done + mine, key, eq);
    KeyedByNext(keys, key, eq);
    SeqAssoc(done, mine, [Insertion(key, eq)]);
    KeySetJoin(mine, [Insertion(key, eq)]);
    KeySetOne(Insertion(key, eq));
  }

  /** Before the next item, none of its keys is in yet. */
  lemma BuiltOpen(nodes: Nodes<Equipment>, start: Nodes<Equipment>, items: seq<Equipment>, eq: Equipment)
    requires Built(nodes, start, items)
    ensures Indexed(nodes, nodes, Inserts(items), [], eq)
  {
    assert Inserts(items) + KeyedBy([], eq) == Inserts(items);
    assert KeySet(KeyedBy([], eq)) == {};
  }

  /** Once all the keys of the next item are in, the trie holds the insertions of one more item. */
  lemma BuiltClose(entry: Nodes<Equipment>, nodes: Nodes<Equipment>, start: Nodes<Equipment>, items: seq<Equipment>, i: nat)
    requires i < |items| && Built(entry, start, items[..i])
    requires Indexed(nodes, entry, Inserts(items[..i]), IndexKeys(items[i]), items[i])
    ensures Built(nodes, start, items[..i + 1])
  {
    InsertsNext(items, i);
    KeySetJoin(Inserts(items[..i]), KeyedBy(IndexKeys(items[i]), items[i]));
  }

  /** The keys of two runs of insertions, one after the other. */
  lemma {:induction false} KeySetJoin(a: seq<Insertion>, b: seq<Insertion>)
    ensures KeySet(a + b) == KeySet(a) + KeySet(b)
    decreases |b|
  {
    if b != [] {
      var front := b[..|b| - 1];
      KeySetJoin(a, front);
      assert (a + b)[..|a + b| - 1] == a + front;
    } else {
      assert a + b == a;
    }
  }

  /** One more description word, kept or not. */
  lemma LongWordsNext(words: seq<string>, j: nat)
    requires j < |words|
    ensures LongWords(words[..j + 1]) == LongWords(words[..j]) + (if |words[j]| > 3 then [words[j]] else [])
  {
    assert words[..j + 1][..j] == words[..j];
  }

  /** No words add nothing, and all of them add their long words. */
  lemma LongWordsEnds(words: seq<string>, keys: seq<string>)
    ensures keys + LongWords(words[..0]) == keys
    ensures LongWords(words[..|words|]) == LongWords(words)
  {
    assert words[..0] == [];
    assert words[..|words|] == words;
  }

  /** One more key for the same item. */
  lemma KeyedByNext(keys: seq<string>, key: string, eq: Equipment)
    ensures KeyedBy(keys + [key], eq) == KeyedBy(keys, eq) + [Insertion(key, eq)]
  {
  }

  /** The insertions of one more item follow those of the items before it. */
  lemma InsertsNext(items: seq<Equipment>, i: nat)
    requires i < |items|
    ensures Inserts(items[..i + 1]) == Inserts(items[..i]) + KeyedBy(IndexKeys(items[i]), items[i])
  {
    assert items[..i + 1][..i] == items[..i];
  }

  /** `getAllEquipment()`: the items, or `None` when there are none or the fetch fails; both leave the cache empty. */
  function Loaded(fetched: Option<seq<Equipment>>): seq<Equipment> {
    if fetched.Some? then fetched.value else []
  }

  /** `getWordsWithPrefix(query, 10)` on the index. */
  function Lookup(nodes: Nodes<Equipment>, query: string): seq<Entry<Equipment>> {
    if Lower(query) in nodes then Trunc(Collect(nodes, Lower(query), query, [], NoLimit), 10) else []
  }

  /** The reply to `/search`: a request for a query, or one of the three outcomes of a lookup. */
  datatype Reply = AskForQuery | NoEquipment | NoMatch | Results(matches: seq<Entry<Equipment>>)

  /** The reply `handle` gives to a non-blank query once the index is in place. */
  function Answer(nodes: Nodes<Equipment>, cache: seq<Equipment>, query: string): Reply {
    if cache == [] then NoEquipment
    else if Lookup(nodes, Trim(Lower(query))) == [] then NoMatch
    else Results(Lookup(nodes, Trim(Lower(query))))
  }

  /**
   * A lookup gives at most ten matches; each is a stored word that starts
   * with the query, shown with the query's own spelling, with the data
   * stored for it; and when ten or fewer words start with the query, all of
   * them are there.
   */
  lemma LookupMatches(nodes: Nodes<Equipment>, query: string)
    requires Linked(nodes)
    ensures |Lookup(nodes, query)| <= 10
    ensures Lower(query) !in nodes ==> Lookup(nodes, query) == []
    ensures forall e :: e in Lookup(nodes, query) ==> Found(nodes, Lower(query), query, e)
    ensures Lower(query) in nodes && |Collect(nodes, Lower(query), query, [], NoLimit)| <= 10 ==>
      forall q :: q in Words(nodes) && IsPrefix(Lower(query), q) ==> EntryFor(nodes, Lower(query), query, q) in Lookup(nodes, query)
  {
    if Lower(query) in nodes {
      PrefixResults(nodes, Lower(query), query, 10);
    }
  }

  /** The case of the query's letters does not change the answer. */
  lemma AnswerIgnoresCase(nodes: Nodes<Equipment>, cache: seq<Equipment>, query: string)
    ensures Answer(nodes, cache, Lower(query)) == Answer(nodes, cache, query)
  {
    LowerIdempotent(query);
  }

  /** The `SearchHandler` object: its trie and its cache of the catalogue. */
  class SearchHandler {
    var trie: Trie<Equipment>
    /** `equipmentCache`; `null` and the empty list are both the empty sequence, as every test treats them alike. */
    var cache: seq<Equipment>

    ghost predicate Valid()
      reads this, trie
    {
      trie.Valid()
    }

    /** `new SearchHandler(...)`: an empty trie, then `buildIndex` with what the catalogue returns. */
    constructor(fetched: Option<seq<Equipment>>)
      ensures Valid() && fresh(trie)
      ensures cache == Loaded(fetched)
      ensures Words(trie.nodes) == KeySet(Inserts(cache))
      ensures Latest(trie.nodes, Inserts(cache))
    {
      trie := new Trie();
      cache := [];
      new;
      BuildIndex(fetched);
    }

    /**
     * `buildIndex()`: each item with a name is inserted under its keys, one
     * after the other, and the cache becomes the fetched list.  Keys are only
     * ever added, and each one leads to the last item inserted under it.
     */
    method BuildIndex(fetched: Option<seq<Equipment>>)
      requires Valid()
      modifies this, trie
      ensures Valid() && trie == old(trie)
      ensures cache == Loaded(fetched)
      ensures Words(trie.nodes) == Words(old(trie.nodes)) + KeySet(Inserts(cache))
      ensures Latest(trie.nodes, Inserts(cache))
    {
      if fetched.None? || fetched.value == [] {
        cache := [];
        assert KeySet([]) == {};
        return;
      }
      var items := fetched.value;
      ghost var start := trie.nodes;
      var i := 0;
      assert items[..0] == [];
      assert KeySet([]) == {};
      while i < |items|
        invariant 0 <= i <= |items| && trie == old(trie) && Valid()
        invariant Built(trie.nodes, start, items[..i])
      {
        IndexItem(items, i, start);
        i := i + 1;
      }
      assert items[..i] == items;
      cache := items;
    }

    /**
     * One `this.trie.insert(key, eq)` of `buildIndex`, with a key that is
     * already lower-case: the item's keys so far grow by `key`.
     */
    method AddKey(key: string, eq: Equipment, ghost start: Nodes<Equipment>, ghost done: seq<Insertion>, ghost keys: seq<string>)
      requires Valid() && key != [] && Lower(key) == key
      requires Indexed(trie.nodes, start, done, keys, eq)
      modifies trie
      ensures Valid()
      ensures Indexed(trie.nodes, start, done, keys + [key], eq)
    {
      ghost var before := trie.nodes;
      trie.Insert(key, Some(eq), IsObject);
      IndexedStep(before, trie.nodes, start, done, keys, key, eq);
    }

    /** The body of `buildIndex`'s `forEach` for one item: its name, then its long description words. */
    method IndexItem(items: seq<Equipment>, i: nat, ghost start: Nodes<Equipment>)
      requires Valid() && i < |items| && Built(trie.nodes, start, items[..i])
      modifies trie
      ensures Valid() && Built(trie.nodes, start, items[..i + 1])
    {
      var eq := items[i];
      ghost var entry := trie.nodes;
      ghost var done := Inserts(items[..i]);
      BuiltOpen(trie.nodes, start, items[..i], eq);
      if eq.name == [] {
        BuiltClose(entry, trie.nodes, start, items, i);
        return;
      }
      LowerIdempotent(eq.name);
      AddKey(Lower(eq.name), eq, entry, done, []);
      assert [] + [Lower(eq.name)] == [Lower(eq.name)];
      var keywords := Split(Lower(eq.description), ' ');
      PiecesLower(eq.description);
      IndexWords(keywords, eq, entry, done, [Lower(eq.name)]);
      BuiltClose(entry, trie.nodes, start, items, i);
    }

    /** `keywords.forEach(...)`: each word longer than three characters is one more key of the item. */
    method IndexWords(words: seq<string>, eq: Equipment, ghost entry: Nodes<Equipment>, ghost done: seq<Insertion>, ghost keys: seq<string>)
      requires Valid() && Indexed(trie.nodes, entry, done, keys, eq)
      requires forall w :: w in words ==> Lower(w) == w
      modifies trie
      ensures Valid() && Indexed(trie.nodes, entry, done, keys + LongWords(words), eq)
    {
      var j := 0;
      LongWordsEnds(words, keys);
      while j < |words|
        invariant 0 <= j <= |words| && Valid()
        invariant Indexed(trie.nodes, entry, done, keys + LongWords(words[..j]), eq)
      {
        IndexWord(words, j, eq, entry, done, keys);
        j := j + 1;
      }
    }

    /** One word of the `forEach`: added as a key when longer than three characters, skipped otherwise. */
    method IndexWord(words: seq<string>, j: nat, eq: Equipment, ghost entry: Nodes<Equipment>, ghost done: seq<Insertion>,
                     ghost keys: seq<string>)
      requires j < |words| && forall w :: w in words ==> Lower(w) == w
      requires Valid() && Indexed(trie.nodes, entry, done, keys + LongWords(words[..j]), eq)
      modifies trie
      ensures Valid() && Indexed(trie.nodes, entry, done, keys + LongWords(words[..j + 1]), eq)
    {
      LongWordsNext(words, j);
      assert words[j] in words;
      if |words[j]| > 3 {
        AddKey(words[j], eq, entry, done, keys + LongWords(words[..j]));
        SeqAssoc(keys, LongWords(words[..j]), [words[j]]);
      } else {
        assert LongWords(words[..j + 1]) == LongWords(words[..j]);
      }
    }

    /**
     * `handle(msg, query)`: a blank query is turned away before anything
     * else.  Otherwise an empty cache makes the index be built again first,
     * and the reply is the lookup of the lower-cased, trimmed query.
     */
    method Handle(query: string, fetched: Option<seq<Equipment>>) returns (reply: Reply)
      requires Valid()
      modifies this, trie
      ensures Valid() && trie == old(trie)
      ensures AllSpace(query) ==> reply == AskForQuery && cache == old(cache) && trie.nodes == old(trie.nodes)
      ensures !AllSpace(query) && old(cache) != [] ==> cache == old(cache) && trie.nodes == old(trie.nodes)
      ensures !AllSpace(query) && old(cache) == [] ==>
        cache == Loaded(fetched) &&
        Words(trie.nodes) == Words(old(trie.nodes)) + KeySet(Inserts(cache)) &&
        Latest(trie.nodes, Inserts(cache))
      ensures !AllSpace(query) ==> reply == Answer(trie.nodes, cache, query)
    {
      TrimEmptyIff(query);
      if query == [] || Trim(query) == [] {
        return AskForQuery;
      }
      if cache == [] {
        BuildIndex(fetched);
      }
      var queryLower := Trim(Lower(query));
      var prefixMatches := trie.GetWordsWithPrefix(queryLower, 10);
      if cache == [] {
        return NoEquipment;
      }
      if prefixMatches == [] {
        return NoMatch;
      }
      reply := Results(prefixMatches);
    }
  }
}
