/**
 * Word pools. The word lists themselves are data and enter as a table of categories in definition
 * order, which is also the order `Object.values` lists them in.
 */
module Words {
  import opened Common

  datatype Category = Category(id: string, words: seq<string>)

  /** The category id that stands for "all categories". */
  const RandomId: string := "random"

  /** `Object.values(WORDS)` concatenated, category after category. */
  function AllWords(table: seq<Category>): (pooled: seq<string>)
  {
    if table == [] then [] else AllWords(table[..|table| - 1]) + table[|table| - 1].words
  }

  /** The words of all categories are exactly the words of some category. */
  lemma {:induction false} AllWordsHas(table: seq<Category>)
    ensures forall i, w :: 0 <= i < |table| && w in table[i].words ==> w in AllWords(table)
    ensures forall w :: w in AllWords(table) ==> exists i :: 0 <= i < |table| && w in table[i].words
  {
    if table != [] {
      var front := table[..|table| - 1];
      AllWordsHas(front);
      assert forall i :: 0 <= i < |front| ==> front[i] == table[i];
    }
  }

  /** `WORDS[id]`, the first category with that id. */
  function Lookup(table: seq<Category>, id: string): (found: Option<seq<string>>)
  {
    if table == [] then None
    else if table[0].id == id then Some(table[0].words)
    else Lookup(table[1..], id)
  }

  /** The lookup fails exactly when no category has the id, and otherwise gives one with it. */
  lemma {:induction false} LookupFinds(table: seq<Category>, id: string)
    ensures Lookup(table, id).None? <==> forall i :: 0 <= i < |table| ==> table[i].id != id
    ensures Lookup(table, id).Some? ==>
      exists i :: 0 <= i < |table| && table[i].id == id && table[i].words == Lookup(table, id).value
  {
    if table != [] && table[0].id != id {
      LookupFinds(table[1..], id);
      assert forall i :: 0 <= i < |table| - 1 ==> table[1..][i] == table[i + 1];
      if Lookup(table, id).Some? {
        var j :| 0 <= j < |table| - 1 && table[1..][j].id == id && table[1..][j].words == Lookup(table, id).value;
        assert table[j + 1].id == id;
      }
    }
  }

  /** The server's word data: a "random" category exists and no category is empty. */
  predicate ServerTable(table: seq<Category>)
  {
    Lookup(table, RandomId).Some? && forall i :: 0 <= i < |table| ==> table[i].words != []
  }

  /** The pool getRandomWord draws from (server.js:84-92). */
  function ServerPool(table: seq<Category>, category: string): (pool: seq<string>)
    requires ServerTable(table)
  {
    if category == RandomId then AllWords(table)
    else match Lookup(table, category)
      case Some(ws) => ws
      case None => Lookup(table, RandomId).value
  }

  /** The server's pool is never empty, so `pool[Math.floor(Math.random() * pool.length)]` is a word. */
  lemma ServerPoolNonEmpty(table: seq<Category>, category: string)
    requires ServerTable(table)
    ensures |ServerPool(table, category)| > 0
  {
    LookupFinds(table, RandomId);
    LookupFinds(table, category);
    var ws := Lookup(table, RandomId).value;
    assert ws != [];
    if category == RandomId {
      AllWordsHas(table);
      assert ws[0] in AllWords(table);
    }
  }

  /** getRandomWord with the random index as `pick`. */
  function GetRandomWord(table: seq<Category>, category: string, pick: nat): (w: string)
    requires ServerTable(table) && pick < |ServerPool(table, category)|
    ensures w in ServerPool(table, category)
  {
    ServerPool(table, category)[pick]
  }

  /**
   * The word comes from the requested category, from every category for "random", and from the
   * "random" category for an unknown id.
   */
  lemma GetRandomWordFrom(table: seq<Category>, category: string, pick: nat)
    requires ServerTable(table) && pick < |ServerPool(table, category)|
    ensures var w := GetRandomWord(table, category, pick);
      && (category == RandomId ==> exists i :: 0 <= i < |table| && w in table[i].words)
      && (category != RandomId && Lookup(table, category).Some? ==> w in Lookup(table, category).value)
      && (category != RandomId && Lookup(table, category).None? ==> w in Lookup(table, RandomId).value)
  {
    AllWordsHas(table);
  }

  /** The pool chooseWord draws from (game.js:457-475): an unknown category contributes nothing. */
  function LocalPool(table: seq<Category>, category: string, custom: seq<string>): (pool: seq<string>)
  {
    (if category == RandomId then AllWords(table)
     else match Lookup(table, category) case Some(ws) => ws case None => []) + custom
  }

  /**
   * The custom words are always in the pool; under "random" nothing else is but the table's words,
   * a known id draws from its own list followed by the custom words, and an unknown id from the
   * custom words alone.
   */
  lemma LocalPoolHas(table: seq<Category>, category: string, custom: seq<string>)
    ensures forall w :: w in custom ==> w in LocalPool(table, category, custom)
    ensures category == RandomId ==> forall w :: w in LocalPool(table, category, custom) ==>
      w in custom || exists i :: 0 <= i < |table| && w in table[i].words
    ensures category != RandomId && Lookup(table, category).Some? ==>
      LocalPool(table, category, custom) == Lookup(table, category).value + custom
    ensures category != RandomId && Lookup(table, category).None? ==> LocalPool(table, category, custom) == custom
  {
    AllWordsHas(table);
  }

  /** The range of `Math.floor(Math.random() * n)`: below `n`, or 0 when `n` is 0. */
  predicate PickFits(pick: nat, n: nat)
  {
    pick < n || (n == 0 && pick == 0)
  }

  /** chooseWord's result: a word of the pool, or `undefined` (None) when the pool is empty. */
  function ChooseWord(table: seq<Category>, category: string, custom: seq<string>, pick: nat): (w: Option<string>)
    requires PickFits(pick, |LocalPool(table, category, custom)|)
    ensures w.None? <==> LocalPool(table, category, custom) == []
    ensures w.Some? ==> w.value in LocalPool(table, category, custom)
  {
    var pool := LocalPool(table, category, custom);
    if pick < |pool| then Some(pool[pick]) else None
  }
}
