/**
 * `DefaultWordsFilterContext`: the filters of one backend kind, one per
 * category, kept in two maps sorted by key (a `ConcurrentSkipListMap`), and
 * the four operations run over every filter in ascending name order with an
 * optional interceptor that may stop the run after any filter. Also the
 * static cache of contexts keyed by backend kind.
 *
 * What the filters report is described by heap-free `Entry` values (name,
 * category, scanner), and each operation of the context by a fold over the
 * entries in name order.
 */
module ContextSpec {
  import opened Wrappers
  import opened JavaStrings
  import opened Words
  import opened Base
  import opened StringOrder

  /** One filter of a context, as a value. */
  datatype Entry = Entry(name: string, category: string, sc: Scanner)

  /** A scanner that never reports the empty word (every built one). */
  ghost predicate Clean(sc: Scanner) {
    forall part, content, x {:trigger x in Elements(Reports(sc, part, content))} ::
      x in Elements(Reports(sc, part, content)) ==> x != []
  }

  ghost predicate AllClean(es: seq<Entry>) {
    forall k :: 0 <= k < |es| ==> Clean(es[k].sc)
  }

  lemma BuiltClean(kind: FilterType, wordSet: WordsCategory, sc: Scanner)
    requires Built(kind, wordSet, sc)
    ensures Clean(sc)
  {
    forall part, content, x | x in Elements(Reports(sc, part, content)) ensures x != [] {
      ReportsNonEmpty(kind, wordSet, sc, part, content);
      var i :| 0 <= i < |Reports(sc, part, content)| && Reports(sc, part, content)[i] == x;
      assert x in Reports(sc, part, content);
    }
  }

  /** The entries of the names `q` that `m` holds, in the order of `q`. */
  ghost function Listed(q: seq<string>, m: map<string, Entry>): seq<Entry>
    decreases |q|
  {
    if q == [] then []
    else if q[0] in m then [m[q[0]]] + Listed(q[1..], m)
    else Listed(q[1..], m)
  }

  /** The entries of `m` in ascending name order: the order in which the
      context visits its filters. */
  ghost function Ordered(m: map<string, Entry>): seq<Entry> {
    Listed(Ascending(m.Keys), m)
  }

  /** Listing from position `i` of a key sequence: the entry of key `i`
      first. */
  lemma ListedAt(q: seq<string>, i: int, m: map<string, Entry>)
    requires 0 <= i < |q| && q[i] in m
    ensures Listed(q[i..], m) == [m[q[i]]] + Listed(q[i + 1..], m)
  {
    assert q[i..][1..] == q[i + 1..];
  }

  /** Listing past the last key gives nothing. */
  lemma ListedEnd(q: seq<string>, m: map<string, Entry>)
    ensures Listed(q[|q|..], m) == []
  {
    assert q[|q|..] == [];
  }

  lemma {:induction false} ListedClean(q: seq<string>, m: map<string, Entry>)
    requires forall n :: n in m ==> Clean(m[n].sc)
    ensures AllClean(Listed(q, m))
    decreases |q|
  {
    if q != [] {
      ListedClean(q[1..], m);
    }
  }

  // -----------------------------------------------------------------------
  // The four operations over the entries
  // -----------------------------------------------------------------------

  /** `FilterInterceptor.perFilter`: whether the run goes on to the next
      filter; without an interceptor it always does. */
  function Proceeds<R>(icpt: Option<(string, string, R) -> bool>, name: string, category: string, result: R): bool {
    icpt.None? || icpt.value(name, category, result)
  }

  /** `contains`: the results are or-ed, and after each filter the
      interceptor may end the run. */
  ghost function ContainsFold(es: seq<Entry>, part: bool, content: string,
                              icpt: Option<(string, string, bool) -> bool>, acc: bool): bool
    decreases |es|
  {
    if es == [] then acc
    else
      var hit := Reports(es[0].sc, part, content) != [];
      if !Proceeds(icpt, es[0].name, es[0].category, hit) then acc || hit
      else ContainsFold(es[1..], part, content, icpt, acc || hit)
  }

  /** `match`: the words are collected into one set, and after each filter
      the interceptor may end the run. */
  ghost function MatchFold(es: seq<Entry>, part: bool, content: string,
                           icpt: Option<(string, string, set<string>) -> bool>, acc: set<string>): set<string>
    decreases |es|
  {
    if es == [] then acc
    else
      var found := Elements(Reports(es[0].sc, part, content));
      if !Proceeds(icpt, es[0].name, es[0].category, found) then acc + found
      else MatchFold(es[1..], part, content, icpt, acc + found)
  }

  /** `highlight`: each filter highlights the text the previous one
      returned, and after each filter the interceptor may end the run. */
  ghost function HighlightFold(es: seq<Entry>, part: bool, content: string, order: set<string> -> seq<string>,
                               icpt: Option<(string, string, string) -> bool>): string
    requires AllClean(es) && IsIteration(order)
    decreases |es|
  {
    if es == [] then content
    else
      var words := Elements(Reports(es[0].sc, part, content));
      IterationNonEmpty(order, words);
      var r := HighlightAll(content, order(words));
      if !Proceeds(icpt, es[0].name, es[0].category, r) then r
      else HighlightFold(es[1..], part, r, order, icpt)
  }

  /** `filter`: each filter masks the text the previous one returned, and
      after each filter the interceptor may end the run. */
  ghost function MaskFold(es: seq<Entry>, part: bool, content: string, m: char, order: set<string> -> seq<string>,
                          icpt: Option<(string, string, string) -> bool>): string
    requires AllClean(es) && IsIteration(order)
    decreases |es|
  {
    if es == [] then content
    else
      var words := Elements(Reports(es[0].sc, part, content));
      IterationNonEmpty(order, words);
      var r := MaskAll(content, order(words), m);
      if !Proceeds(icpt, es[0].name, es[0].category, r) then r
      else MaskFold(es[1..], part, r, m, order, icpt)
  }

  /** One step of `contains`: the filter of key `i`, then the rest. */
  lemma ContainsStep(q: seq<string>, i: int, es: map<string, Entry>, part: bool, text: string,
                     icpt: Option<(string, string, bool) -> bool>, acc: bool, hit: bool)
    requires 0 <= i < |q| && q[i] in es && hit == (Reports(es[q[i]].sc, part, text) != [])
    ensures ContainsFold(Listed(q[i..], es), part, text, icpt, acc) ==
      if !Proceeds(icpt, es[q[i]].name, es[q[i]].category, hit) then acc || hit
      else ContainsFold(Listed(q[i + 1..], es), part, text, icpt, acc || hit)
  {
    ListedAt(q, i, es);
  }

  /** One step of `match`: the filter of key `i`, then the rest. */
  lemma MatchStep(q: seq<string>, i: int, es: map<string, Entry>, part: bool, text: string,
                  icpt: Option<(string, string, set<string>) -> bool>, acc: set<string>, found: set<string>)
    requires 0 <= i < |q| && q[i] in es && found == Elements(Reports(es[q[i]].sc, part, text))
    ensures MatchFold(Listed(q[i..], es), part, text, icpt, acc) ==
      if !Proceeds(icpt, es[q[i]].name, es[q[i]].category, found) then acc + found
      else MatchFold(Listed(q[i + 1..], es), part, text, icpt, acc + found)
  {
    ListedAt(q, i, es);
  }

  /** The entries after the first of a clean listing are clean. */
  lemma CleanTail(q: seq<string>, i: int, es: map<string, Entry>)
    requires 0 <= i < |q| && q[i] in es && AllClean(Listed(q[i..], es))
    ensures Clean(es[q[i]].sc) && AllClean(Listed(q[i + 1..], es))
  {
    ListedAt(q, i, es);
    var l := Listed(q[i..], es);
    var t := Listed(q[i + 1..], es);
    assert l[0] == es[q[i]];
    forall k | 0 <= k < |t| ensures Clean(t[k].sc) {
      assert t[k] == l[k + 1];
    }
  }
  /** One step of `highlight`: the filter of key `i`, then the rest. */
  lemma HighlightStep(q: seq<string>, i: int, es: map<string, Entry>, part: bool, text: string,
                      order: set<string> -> seq<string>, icpt: Option<(string, string, string) -> bool>, r: string)
    requires 0 <= i < |q| && q[i] in es && AllClean(Listed(q[i..], es)) && IsIteration(order)
    requires NonEmptyWords(order(Elements(Reports(es[q[i]].sc, part, text))))
    requires r == HighlightAll(text, order(Elements(Reports(es[q[i]].sc, part, text))))
    ensures AllClean(Listed(q[i + 1..], es))
    ensures HighlightFold(Listed(q[i..], es), part, text, order, icpt) ==
      if !Proceeds(icpt, es[q[i]].name, es[q[i]].category, r) then r
      else HighlightFold(Listed(q[i + 1..], es), part, r, order, icpt)
  {
    CleanTail(q, i, es);
  }

  /** One step of `filter`: the filter of key `i`, then the rest. */
  lemma MaskStep(q: seq<string>, i: int, es: map<string, Entry>, part: bool, text: string, m: char,
                 order: set<string> -> seq<string>, icpt: Option<(string, string, string) -> bool>, r: string)
    requires 0 <= i < |q| && q[i] in es && AllClean(Listed(q[i..], es)) && IsIteration(order)
    requires NonEmptyWords(order(Elements(Reports(es[q[i]].sc, part, text))))
    requires r == MaskAll(text, order(Elements(Reports(es[q[i]].sc, part, text))), m)
    ensures AllClean(Listed(q[i + 1..], es))
    ensures MaskFold(Listed(q[i..], es), part, text, m, order, icpt) ==
      if !Proceeds(icpt, es[q[i]].name, es[q[i]].category, r) then r
      else MaskFold(Listed(q[i + 1..], es), part, r, m, order, icpt)
  {
    CleanTail(q, i, es);
  }

  /** Without an interceptor, `contains` of the context is true exactly when
      some filter finds a word. */
  lemma {:induction false} ContainsFoldAll(es: seq<Entry>, part: bool, content: string, acc: bool)
    ensures ContainsFold(es, part, content, None, acc) <==>
      acc || exists k :: 0 <= k < |es| && Reports(es[k].sc, part, content) != []
    decreases |es|
  {
    if es != [] {
      ContainsFoldAll(es[1..], part, content, acc || Reports(es[0].sc, part, content) != []);
      if exists k :: 0 <= k < |es| && Reports(es[k].sc, part, content) != [] {
        var k :| 0 <= k < |es| && Reports(es[k].sc, part, content) != [];
        if k > 0 {
          assert es[1..][k - 1] == es[k];
        }
      }
      forall k | 0 <= k < |es[1..]| && Reports(es[1..][k].sc, part, content) != []
        ensures exists j :: 0 <= j < |es| && Reports(es[j].sc, part, content) != []
      {
        assert es[1..][k] == es[k + 1];
      }
    }
  }

  /** An interceptor that ends the run at the first filter that finds
      something gives the same answer as none. */
  lemma {:induction false} ContainsStopOnHit(es: seq<Entry>, part: bool, content: string, acc: bool)
    ensures ContainsFold(es, part, content, Some((name: string, category: string, hit: bool) => !hit), acc)
         == ContainsFold(es, part, content, None, acc)
    decreases |es|
  {
    if es != [] {
      var hit := Reports(es[0].sc, part, content) != [];
      if hit {
        ContainsFoldTrue(es[1..], part, content, None);
      } else {
        ContainsStopOnHit(es[1..], part, content, acc);
      }
    }
  }

  /** Once true, `contains` stays true. */
  lemma {:induction false} ContainsFoldTrue(es: seq<Entry>, part: bool, content: string,
                                            icpt: Option<(string, string, bool) -> bool>)
    ensures ContainsFold(es, part, content, icpt, true)
    decreases |es|
  {
    if es != [] {
      ContainsFoldTrue(es[1..], part, content, icpt);
    }
  }

  /** Without an interceptor, `match` of the context is the union of what
      every filter finds. */
  lemma {:induction false} MatchFoldAll(es: seq<Entry>, part: bool, content: string, acc: set<string>, x: string)
    ensures x in MatchFold(es, part, content, None, acc) <==>
      x in acc || exists k :: 0 <= k < |es| && x in Reports(es[k].sc, part, content)
    decreases |es|
  {
    if es != [] {
      var found := Elements(Reports(es[0].sc, part, content));
      MatchFoldAll(es[1..], part, content, acc + found, x);
      if exists k :: 0 <= k < |es| && x in Reports(es[k].sc, part, content) {
        var k :| 0 <= k < |es| && x in Reports(es[k].sc, part, content);
        if k > 0 {
          assert es[1..][k - 1] == es[k];
        } else {
          var i :| 0 <= i < |Reports(es[0].sc, part, content)| && Reports(es[0].sc, part, content)[i] == x;
          assert x in found;
        }
      }
      if x in found {
        var i :| 0 <= i < |Reports(es[0].sc, part, content)| && Reports(es[0].sc, part, content)[i] == x;
      }
      forall k | 0 <= k < |es[1..]| && x in Reports(es[1..][k].sc, part, content)
        ensures exists j :: 0 <= j < |es| && x in Reports(es[j].sc, part, content)
      {
        assert es[1..][k] == es[k + 1];
      }
    }
  }

  /** Whatever the interceptor, `match` of the context only holds words some
      filter found. */
  lemma {:induction false} MatchFoldSound(es: seq<Entry>, part: bool, content: string,
                                          icpt: Option<(string, string, set<string>) -> bool>, acc: set<string>, x: string)
    requires x in MatchFold(es, part, content, icpt, acc)
    ensures x in acc || exists k :: 0 <= k < |es| && x in Reports(es[k].sc, part, content)
    decreases |es|
  {
    if es != [] {
      var found := Elements(Reports(es[0].sc, part, content));
      if x in found {
        var i :| 0 <= i < |Reports(es[0].sc, part, content)| && Reports(es[0].sc, part, content)[i] == x;
        assert x in Reports(es[0].sc, part, content);
      } else if Proceeds(icpt, es[0].name, es[0].category, found) {
        MatchFoldSound(es[1..], part, content, icpt, acc + found, x);
        if x !in acc {
          var k :| 0 <= k < |es[1..]| && x in Reports(es[1..][k].sc, part, content);
          assert es[1..][k] == es[k + 1];
        }
      }
    }
  }

  /** `filter` of the context keeps the length of the text and changes
      characters only into `m`. */
  lemma {:induction false} MaskFoldShape(es: seq<Entry>, part: bool, content: string, m: char,
                                         order: set<string> -> seq<string>, icpt: Option<(string, string, string) -> bool>)
    requires AllClean(es) && IsIteration(order)
    ensures |MaskFold(es, part, content, m, order, icpt)| == |content|
    ensures forall k :: 0 <= k < |content| ==> MaskFold(es, part, content, m, order, icpt)[k] in {content[k], m}
    decreases |es|
  {
    if es != [] {
      var words := Elements(Reports(es[0].sc, part, content));
      IterationNonEmpty(order, words);
      var r := MaskAll(content, order(words), m);
      MaskAllShape(content, order(words), m);
      MaskFoldShape(es[1..], part, r, m, order, icpt);
      var out := MaskFold(es, part, content, m, order, icpt);
      forall k | 0 <= k < |content| ensures out[k] in {content[k], m} {
        assert out[k] in {r[k], m};
      }
    }
  }

  /** A word the first filter finds is gone from the result of `filter`,
      whatever the later filters and the interceptor do, as long as it does
      not contain `m`. */
  lemma MaskFoldRemovesFirst(es: seq<Entry>, part: bool, content: string, m: char,
                             order: set<string> -> seq<string>, icpt: Option<(string, string, string) -> bool>, x: string)
    requires AllClean(es) && IsIteration(order)
    requires es != [] && x in Reports(es[0].sc, part, content) && m !in x
    ensures !Occurs(x, MaskFold(es, part, content, m, order, icpt))
  {
    var words := Elements(Reports(es[0].sc, part, content));
    IterationNonEmpty(order, words);
    var i :| 0 <= i < |Reports(es[0].sc, part, content)| && Reports(es[0].sc, part, content)[i] == x;
    assert x in words;
    assert x in order(words);
    var r := MaskAll(content, order(words), m);
    MaskAllRemoves(content, order(words), m, x);
    if Proceeds(icpt, es[0].name, es[0].category, r) {
      MaskFoldShape(es[1..], part, r, m, order, icpt);
      MaskKeepsAbsent(r, MaskFold(es[1..], part, r, m, order, icpt), x, m);
    }
  }

  /** A text in which no filter finds anything comes back from `highlight`
      unchanged. */
  lemma {:induction false} HighlightFoldQuiet(es: seq<Entry>, part: bool, content: string,
                                              order: set<string> -> seq<string>, icpt: Option<(string, string, string) -> bool>)
    requires AllClean(es) && IsIteration(order)
    requires forall k :: 0 <= k < |es| ==> Reports(es[k].sc, part, content) == []
    ensures HighlightFold(es, part, content, order, icpt) == content
    decreases |es|
  {
    if es != [] {
      var words := Elements(Reports(es[0].sc, part, content));
      assert words == {};
      IterationOfNothing(order);
      forall k | 0 <= k < |es[1..]| ensures Reports(es[1..][k].sc, part, content) == [] {
        assert es[1..][k] == es[k + 1];
      }
      HighlightFoldQuiet(es[1..], part, content, order, icpt);
    }
  }

  // -----------------------------------------------------------------------
  // The state of a context
  // -----------------------------------------------------------------------

  /** The filter under name `n` is valid, of the kind, held within `R`,
      and described by its entry. */
  ghost predicate FilterValid(kind: FilterType, n: string, f: WordsFilter, e: Entry, R: set<object>)
    reads R
  {
    && Obj(f.backend) in R
    && Frame(f.backend) <= R
    && Base.Valid(f)
    && f.name == n
    && KindOf(f.backend) == kind
    && e == Entry(n, f.words.category, ScannerOf(f.backend))
    && Clean(e.sc)
  }

  /** Every filter is valid, of the kind, kept under its own name, held
      within `R`, and described by its entry. */
  ghost predicate FiltersValid(kind: FilterType, fs: map<string, WordsFilter>, es: map<string, Entry>, R: set<object>)
    reads R
  {
    && es.Keys == fs.Keys
    && forall n {:trigger fs[n]} :: n in fs ==> n in es && FilterValid(kind, n, fs[n], es[n], R)
  }

  /** The category map and the filter map move in lock-step: each category
      has the filter of its name, built from the same word set, and each
      filter's category is in the category map. */
  predicate Catalogued(cats: map<string, WordsCategory>, fs: map<string, WordsFilter>) {
    && (forall c {:trigger cats[c]} :: c in cats ==>
          && cats[c].category == c
          && FilterName(c) in fs
          && fs[FilterName(c)].words == cats[c])
    && (forall n {:trigger fs[n]} :: n in fs ==>
          && n == FilterName(fs[n].words.category)
          && fs[n].words.category in cats
          && cats[fs[n].words.category] == fs[n].words)
  }

  /** Adding a freshly built filter keeps the filters valid. */
  lemma AddFilter(kind: FilterType, fs: map<string, WordsFilter>, es: map<string, Entry>, R: set<object>, f: WordsFilter)
    requires FiltersValid(kind, fs, es, R)
    requires Base.Valid(f) && KindOf(f.backend) == kind
    ensures FiltersValid(kind, fs[f.name := f], es[f.name := Entry(f.name, f.words.category, ScannerOf(f.backend))],
                         R + Frame(f.backend))
  {
    var e := Entry(f.name, f.words.category, ScannerOf(f.backend));
    BuiltClean(kind, f.words, e.sc);
    var fs', es', R' := fs[f.name := f], es[f.name := e], R + Frame(f.backend);
    assert FilterValid(kind, f.name, f, e, R');
    forall n | n in fs' ensures FilterValid(kind, n, fs'[n], es'[n], R') {
      if n != f.name {
        FilterValidWider(kind, n, fs[n], es[n], R, R');
      }
    }
    assert es'.Keys == fs'.Keys;
  }

  /** A valid filter stays valid within a larger set of objects. */
  lemma FilterValidWider(kind: FilterType, n: string, f: WordsFilter, e: Entry, R: set<object>, R': set<object>)
    requires FilterValid(kind, n, f, e, R) && R <= R'
    ensures FilterValid(kind, n, f, e, R')
  {
  }

  /** Putting a filter under the name of its category, and its word set
      under the category, keeps the two maps in lock-step. */
  lemma CatalogAdd(cats: map<string, WordsCategory>, fs: map<string, WordsFilter>, f: WordsFilter)
    requires Catalogued(cats, fs) && f.name == FilterName(f.words.category)
    ensures Catalogued(cats[f.words.category := f.words], fs[f.name := f])
  {
    var c := f.words.category;
    forall d | d in cats && d != c ensures FilterName(d) != f.name {
      FilterNameInjective(c, d);
    }
  }

  // -----------------------------------------------------------------------
  // Building a context from a list of word sets
  // -----------------------------------------------------------------------

  /** The category map after `createOrUpdate` of each word set in turn: a
      later word set replaces an earlier one of the same category. */
  function Catalog(sets: seq<WordsCategory>): (r: map<string, WordsCategory>)
    ensures forall c :: c in r ==> r[c].category == c
    decreases |sets|
  {
    if sets == [] then map[]
    else Catalog(sets[..|sets| - 1])[sets[|sets| - 1].category := sets[|sets| - 1]]
  }

  /** One more word set in the catalog. */
  lemma CatalogStep(sets: seq<WordsCategory>, i: nat)
    requires i < |sets|
    ensures Catalog(sets[..i + 1]) == Catalog(sets[..i])[sets[i].category := sets[i]]
  {
    assert sets[..i + 1][..i] == sets[..i];
  }

  /** A TTMP context refuses a list holding a word set with the empty
      word. */
  predicate Refused(kind: FilterType, sets: seq<WordsCategory>) {
    kind == TTMP && exists i :: 0 <= i < |sets| && [] in sets[i].words
  }

  lemma RefusedStep(kind: FilterType, sets: seq<WordsCategory>, i: nat)
    requires i < |sets|
    ensures Refused(kind, sets[..i + 1]) <==> Refused(kind, sets[..i]) || (kind == TTMP && [] in sets[i].words)
  {
    if kind == TTMP && [] in sets[i].words {
      assert sets[..i + 1][i] == sets[i];
    }
    if Refused(kind, sets[..i + 1]) {
      var j :| 0 <= j < i + 1 && [] in sets[..i + 1][j].words;
      if j < i {
        assert sets[..i][j] == sets[..i + 1][j];
      }
    }
    if Refused(kind, sets[..i]) {
      var j :| 0 <= j < i && [] in sets[..i][j].words;
      assert sets[..i + 1][j] == sets[..i][j];
    }
  }

  /** The categories of the catalog are those of the list. */
  lemma {:induction false} CatalogKeys(sets: seq<WordsCategory>, c: string)
    ensures c in Catalog(sets) <==> exists i :: 0 <= i < |sets| && sets[i].category == c
    decreases |sets|
  {
    if sets != [] {
      var init := sets[..|sets| - 1];
      CatalogKeys(init, c);
      if exists i :: 0 <= i < |init| && init[i].category == c {
        var i :| 0 <= i < |init| && init[i].category == c;
        assert sets[i] == init[i];
      }
      if exists i :: 0 <= i < |sets| && sets[i].category == c {
        var i :| 0 <= i < |sets| && sets[i].category == c;
        if i < |init| {
          assert init[i] == sets[i];
        }
      }
    }
  }

  /** Word sets of distinct categories give as many categories. */
  lemma {:induction false} CatalogSize(sets: seq<WordsCategory>)
    requires forall i, j :: 0 <= i < j < |sets| ==> sets[i].category != sets[j].category
    ensures |Catalog(sets)| == |sets|
    decreases |sets|
  {
    if sets != [] {
      var init := sets[..|sets| - 1];
      var last := sets[|sets| - 1];
      CatalogSize(init);
      forall i | 0 <= i < |init| ensures init[i].category != last.category {
        assert init[i] == sets[i];
      }
      CatalogKeys(init, last.category);
    }
  }

  /** The filter names of a set of categories. */
  ghost function Names(cs: set<string>): set<string> {
    set c | c in cs :: FilterName(c)
  }

  /** Distinct categories give distinct names, so there are as many names
      as categories. */
  lemma {:induction false} NamesSize(cs: set<string>)
    ensures |Names(cs)| == |cs|
    decreases |cs|
  {
    if cs != {} {
      var c :| c in cs;
      NamesSize(cs - {c});
      assert Names(cs) == Names(cs - {c}) + {FilterName(c)};
      if FilterName(c) in Names(cs - {c}) {
        var d :| d in cs - {c} && FilterName(d) == FilterName(c);
        FilterNameInjective(c, d);
      }
    }
  }
}

module Context {
  import opened Wrappers
  import opened JavaStrings
  import opened Words
  import opened Base
  import opened StringOrder
  import opened ContextSpec

  class DefaultWordsFilterContext {
    const kind: FilterType
    /** category -> word set */
    var wordsCategories: map<string, WordsCategory>
    /** filter name -> filter */
    var wordsFilters: map<string, WordsFilter>
    /** filter name -> what the filter reports */
    ghost var entries: map<string, Entry>
    ghost var Repr: set<object>

    ghost predicate Valid()
      reads this, Repr
    {
      && this !in Repr
      && FiltersValid(kind, wordsFilters, entries, Repr)
      && Catalogued(wordsCategories, wordsFilters)
    }

    /** An empty context of the given kind. */
    constructor (kind: FilterType)
      ensures Valid() && this.kind == kind
      ensures wordsCategories == map[] && wordsFilters == map[] && Repr == {}
    {
      this.kind := kind;
      wordsCategories := map[];
      wordsFilters := map[];
      entries := map[];
      Repr := {};
    }

    function GetType(): FilterType {
      kind
    }

    function CategoryNames(): set<string>
      reads this
    {
      wordsCategories.Keys
    }

    function FilterNames(): set<string>
      reads this
    {
      wordsFilters.Keys
    }

    function ContainsCategory(category: string): bool
      reads this
    {
      category in wordsCategories
    }

    /** The two maps move in lock-step: the filter names are the names of
        the categories, as many as there are categories, and a category is
        present exactly when its filter is. */
    lemma NamesInLockStep(category: string)
      requires Valid()
      ensures FilterNames() == Names(CategoryNames())
      ensures |FilterNames()| == |CategoryNames()|
      ensures ContainsCategory(category) <==> FilterName(category) in FilterNames()
    {
      forall n | n in FilterNames() ensures n in Names(CategoryNames()) {
        assert n == FilterName(wordsFilters[n].words.category);
      }
      NamesSize(CategoryNames());
      if FilterName(category) in FilterNames() {
        var f := wordsFilters[FilterName(category)];
        FilterNameInjective(category, f.words.category);
      }
    }

    /** `createOrUpdate`: builds a filter for the word set and puts it under
        its name, and the word set under its category, replacing what was
        there. When the build fails nothing changes. */
    method CreateOrUpdate(wordSet: WordsCategory) returns (r: Result<WordsFilter, Error>)
      requires Valid()
      modifies this
      ensures Valid() && fresh(Repr - old(Repr))
      ensures r.Failure? <==> kind == TTMP && [] in wordSet.words
      ensures r.Failure? ==> r.error.CreateWordsFilter?
      ensures r.Failure? ==> wordsCategories == old(wordsCategories) && wordsFilters == old(wordsFilters)
      ensures r.Success? ==> r.value.words == wordSet && r.value.name == FilterName(wordSet.category)
      ensures r.Success? ==> wordsCategories == old(wordsCategories)[wordSet.category := wordSet]
      ensures r.Success? ==> wordsFilters == old(wordsFilters)[r.value.name := r.value]
    {
      var filters;
      ghost var es, repr;
      r, filters, es, repr := PutFilter(kind, wordsFilters, entries, Repr, wordSet);
      var categories := wordsCategories;
      if r.Success? {
        CatalogAdd(wordsCategories, wordsFilters, r.value);
        categories := wordsCategories[wordSet.category := wordSet];
      }
      Install(categories, filters, es, repr);
    }

    /** Replaces the state of the context by a valid one, one field at a
        time. */
    method Install(categories: map<string, WordsCategory>, filters: map<string, WordsFilter>,
                   ghost es: map<string, Entry>, ghost repr: set<object>)
      requires this !in repr && FiltersValid(kind, filters, es, repr) && Catalogued(categories, filters)
      modifies this
      ensures Valid()
      ensures wordsCategories == categories && wordsFilters == filters && entries == es && Repr == repr
    {
      SetCategories(categories, filters, es, repr);
      SetFilters(filters, es, repr);
      SetEntries(filters, es, repr);
      SetRepr(filters, es, repr);
    }

    /** Each of these writes one field; the filters' validity carries over
        because it reads only objects of `repr`, and the context is not one
        of them. */
    method SetCategories(categories: map<string, WordsCategory>, ghost filters: map<string, WordsFilter>,
                         ghost es: map<string, Entry>, ghost repr: set<object>)
      requires this !in repr && FiltersValid(kind, filters, es, repr)
      modifies this
      ensures FiltersValid(kind, filters, es, repr)
      ensures wordsCategories == categories
      ensures wordsFilters == old(wordsFilters) && entries == old(entries) && Repr == old(Repr)
    {
      wordsCategories := categories;
    }

    method SetFilters(filters: map<string, WordsFilter>, ghost es: map<string, Entry>, ghost repr: set<object>)
      requires this !in repr && FiltersValid(kind, filters, es, repr)
      modifies this
      ensures FiltersValid(kind, filters, es, repr)
      ensures wordsFilters == filters
      ensures wordsCategories == old(wordsCategories) && entries == old(entries) && Repr == old(Repr)
    {
      wordsFilters := filters;
    }

    ghost method SetEntries(filters: map<string, WordsFilter>, es: map<string, Entry>, repr: set<object>)
      requires this !in repr && FiltersValid(kind, filters, es, repr)
      modifies this
      ensures FiltersValid(kind, filters, es, repr)
      ensures entries == es
      ensures wordsCategories == old(wordsCategories) && wordsFilters == old(wordsFilters) && Repr == old(Repr)
    {
      entries := es;
    }

    ghost method SetRepr(filters: map<string, WordsFilter>, es: map<string, Entry>, repr: set<object>)
      requires this !in repr && FiltersValid(kind, filters, es, repr)
      modifies this
      ensures FiltersValid(kind, filters, es, repr)
      ensures Repr == repr
      ensures wordsCategories == old(wordsCategories) && wordsFilters == old(wordsFilters) && entries == old(entries)
    {
      Repr := repr;
    }

    /** `contains` over every filter in name order; an empty text is refused. */
    method Contains(part: bool, content: Option<string>, icpt: Option<(string, string, bool) -> bool>)
      returns (r: Result<bool, Error>)
      requires Valid()
      ensures r.Failure? <==> IsNullOrEmpty(content)
      ensures r.Failure? ==> r.error.IllegalArgument?
      ensures r.Success? ==> r.value == ContainsFold(Ordered(entries), part, content.value, icpt, false)
    {
      if IsNullOrEmpty(content) {
        return Failure(IllegalArgument("content must not be empty"));
      }
      var q := AscendingKeys(wordsFilters.Keys);
      OrderedKeys(kind, wordsFilters, entries, Repr);
      var found := ContainsAll(kind, wordsFilters, entries, Repr, q, part, content.value, icpt);
      return Success(found);
    }

    /** `match` over every filter in name order; an empty text is refused. */
    method Match(part: bool, content: Option<string>, icpt: Option<(string, string, set<string>) -> bool>)
      returns (r: Result<set<string>, Error>)
      requires Valid()
      ensures r.Failure? <==> IsNullOrEmpty(content)
      ensures r.Failure? ==> r.error.IllegalArgument?
      ensures r.Success? ==> r.value == MatchFold(Ordered(entries), part, content.value, icpt, {})
    {
      if IsNullOrEmpty(content) {
        return Failure(IllegalArgument("content must not be empty"));
      }
      var q := AscendingKeys(wordsFilters.Keys);
      OrderedKeys(kind, wordsFilters, entries, Repr);
      var found := MatchAll(kind, wordsFilters, entries, Repr, q, part, content.value, icpt);
      return Success(found);
    }

    /** The word sets of the context are plain text for `replaceAll`. */
    ghost predicate LiteralCategories()
      reads this
    {
      forall c :: c in wordsCategories ==> LiteralWords(wordsCategories[c])
    }

    /** `highlight` over every filter in name order, each on the text the
        previous one returned; an empty text is refused. */
    method Highlight(part: bool, content: Option<string>, order: set<string> -> seq<string>,
                     icpt: Option<(string, string, string) -> bool>) returns (r: Result<string, Error>)
      requires Valid() && IsIteration(order) && LiteralCategories()
      ensures AllClean(Ordered(entries))
      ensures r.Failure? <==> IsNullOrEmpty(content)
      ensures r.Failure? ==> r.error.IllegalArgument?
      ensures r.Success? ==> r.value == HighlightFold(Ordered(entries), part, content.value, order, icpt)
    {
      LiteralFilters(wordsCategories, wordsFilters);
      EntriesClean(kind, wordsFilters, entries, Repr);
      ListedClean(Ascending(entries.Keys), entries);
      if IsNullOrEmpty(content) {
        return Failure(IllegalArgument("content must not be empty"));
      }
      var q := AscendingKeys(wordsFilters.Keys);
      OrderedKeys(kind, wordsFilters, entries, Repr);
      var text := HighlightAllFilters(kind, wordsFilters, entries, Repr, q, part, content.value, order, icpt);
      return Success(text);
    }

    /** `filter` over every filter in name order, each on the text the
        previous one returned; an empty text is refused. */
    method Filter(part: bool, content: Option<string>, m: char, order: set<string> -> seq<string>,
                  icpt: Option<(string, string, string) -> bool>) returns (r: Result<string, Error>)
      requires Valid() && IsIteration(order) && LiteralCategories() && m != '$' && m != '\\'
      ensures AllClean(Ordered(entries))
      ensures r.Failure? <==> IsNullOrEmpty(content)
      ensures r.Failure? ==> r.error.IllegalArgument?
      ensures r.Success? ==> r.value == MaskFold(Ordered(entries), part, content.value, m, order, icpt)
    {
      LiteralFilters(wordsCategories, wordsFilters);
      EntriesClean(kind, wordsFilters, entries, Repr);
      ListedClean(Ascending(entries.Keys), entries);
      if IsNullOrEmpty(content) {
        return Failure(IllegalArgument("content must not be empty"));
      }
      var q := AscendingKeys(wordsFilters.Keys);
      OrderedKeys(kind, wordsFilters, entries, Repr);
      var text := MaskAllFilters(kind, wordsFilters, entries, Repr, q, part, content.value, m, order, icpt);
      return Success(text);
    }
  }

  /** The filters of literal word sets hold literal word sets. */
  lemma LiteralFilters(cats: map<string, WordsCategory>, fs: map<string, WordsFilter>)
    requires Catalogued(cats, fs) && forall c :: c in cats ==> LiteralWords(cats[c])
    ensures forall n :: n in fs ==> LiteralWords(fs[n].words)
  {
    forall n | n in fs ensures LiteralWords(fs[n].words) {
      assert cats[fs[n].words.category] == fs[n].words;
    }
  }

  /** `buildFilter`, and the put of the new filter under its name, on the
      filter map of a context. */
  method PutFilter(kind: FilterType, fs: map<string, WordsFilter>, ghost es: map<string, Entry>, ghost R: set<object>,
                   wordSet: WordsCategory)
    returns (r: Result<WordsFilter, Error>, fs': map<string, WordsFilter>, ghost es': map<string, Entry>, ghost R': set<object>)
    requires FiltersValid(kind, fs, es, R)
    ensures FiltersValid(kind, fs', es', R') && R <= R' && fresh(R' - R)
    ensures r.Failure? <==> kind == TTMP && [] in wordSet.words
    ensures r.Failure? ==> r.error.CreateWordsFilter? && fs' == fs && es' == es
    ensures r.Success? ==> r.value.words == wordSet && r.value.name == FilterName(wordSet.category)
    ensures r.Success? ==> fs' == fs[r.value.name := r.value]
  {
    r := BuildFilter(kind, wordSet);
    if r.Success? {
      var f := r.value;
      AddFilter(kind, fs, es, R, f);
      fs', es', R' := fs[f.name := f], es[f.name := Entry(f.name, f.words.category, ScannerOf(f.backend))], R + Frame(f.backend);
    } else {
      fs', es', R' := fs, es, R;
    }
  }

  /** The filter under name `n` reports what its entry says. */
  lemma FilterAt(kind: FilterType, fs: map<string, WordsFilter>, es: map<string, Entry>, R: set<object>, n: string)
    requires FiltersValid(kind, fs, es, R) && n in fs
    ensures n in es && Base.Valid(fs[n]) && es[n].sc == ScannerOf(fs[n].backend)
    ensures es[n].name == fs[n].name && es[n].category == fs[n].words.category
  {
  }

  /** The entries are listed in the ascending order of the filter names. */
  lemma OrderedKeys(kind: FilterType, fs: map<string, WordsFilter>, es: map<string, Entry>, R: set<object>)
    requires FiltersValid(kind, fs, es, R)
    ensures Ordered(es) == Listed(Ascending(fs.Keys), es)
  {
    assert es.Keys == fs.Keys;
  }

  /** Every entry's scanner is clean. */
  lemma EntriesClean(kind: FilterType, fs: map<string, WordsFilter>, es: map<string, Entry>, R: set<object>)
    requires FiltersValid(kind, fs, es, R)
    ensures forall n :: n in es ==> Clean(es[n].sc)
  {
    forall n | n in es ensures Clean(es[n].sc) {
      assert fs[n].name == n;
    }
  }

  /** `contains` of the filter under name `n`. */
  method ContainsOne(ghost kind: FilterType, fs: map<string, WordsFilter>, ghost es: map<string, Entry>, ghost R: set<object>,
                     n: string, part: bool, text: string) returns (name: string, category: string, hit: bool)
    requires FiltersValid(kind, fs, es, R) && n in fs
    ensures n in es && name == es[n].name && category == es[n].category
    ensures hit <==> Reports(es[n].sc, part, text) != []
  {
    FilterAt(kind, fs, es, R, n);
    name, category := fs[n].name, fs[n].words.category;
    hit := Base.Contains(fs[n], part, text);
  }

  /** `getWords` of the filter under name `n`. */
  method MatchOne(ghost kind: FilterType, fs: map<string, WordsFilter>, ghost es: map<string, Entry>, ghost R: set<object>,
                  n: string, part: bool, text: string) returns (name: string, category: string, found: set<string>)
    requires FiltersValid(kind, fs, es, R) && n in fs
    ensures n in es && name == es[n].name && category == es[n].category
    ensures found == Elements(Reports(es[n].sc, part, text))
  {
    FilterAt(kind, fs, es, R, n);
    name, category := fs[n].name, fs[n].words.category;
    found := Base.GetWords(fs[n], part, text);
  }

  /** `highlight` of the filter under name `n`. */
  method HighlightOne(ghost kind: FilterType, fs: map<string, WordsFilter>, ghost es: map<string, Entry>, ghost R: set<object>,
                      n: string, part: bool, text: string, order: set<string> -> seq<string>)
    returns (name: string, category: string, out: string)
    requires FiltersValid(kind, fs, es, R) && n in fs && IsIteration(order)
    requires forall n :: n in fs ==> LiteralWords(fs[n].words)
    ensures n in es && name == es[n].name && category == es[n].category
    ensures NonEmptyWords(order(Elements(Reports(es[n].sc, part, text))))
    ensures out == HighlightAll(text, order(Elements(Reports(es[n].sc, part, text))))
  {
    FilterAt(kind, fs, es, R, n);
    name, category := fs[n].name, fs[n].words.category;
    out := Base.Highlight(fs[n], part, text, order);
  }

  /** `filter` of the filter under name `n`. */
  method MaskOne(ghost kind: FilterType, fs: map<string, WordsFilter>, ghost es: map<string, Entry>, ghost R: set<object>,
                 n: string, part: bool, text: string, m: char, order: set<string> -> seq<string>)
    returns (name: string, category: string, out: string)
    requires FiltersValid(kind, fs, es, R) && n in fs && IsIteration(order) && m != '$' && m != '\\'
    requires forall n :: n in fs ==> LiteralWords(fs[n].words)
    ensures n in es && name == es[n].name && category == es[n].category
    ensures NonEmptyWords(order(Elements(Reports(es[n].sc, part, text))))
    ensures out == MaskAll(text, order(Elements(Reports(es[n].sc, part, text))), m)
  {
    FilterAt(kind, fs, es, R, n);
    name, category := fs[n].name, fs[n].words.category;
    out := Base.Filter(fs[n], part, text, m, order);
  }

  /** The loop of `contains`, over the filters named in `q`, in order. */
  method ContainsAll(ghost kind: FilterType, fs: map<string, WordsFilter>, ghost es: map<string, Entry>, ghost R: set<object>, q: seq<string>,
                     part: bool, text: string, icpt: Option<(string, string, bool) -> bool>) returns (acc: bool)
    requires FiltersValid(kind, fs, es, R) && (forall k :: 0 <= k < |q| ==> q[k] in fs)
    ensures acc == ContainsFold(Listed(q, es), part, text, icpt, false)
  {
    acc := false;
    for i := 0 to |q|
      invariant ContainsFold(Listed(q[i..], es), part, text, icpt, acc)
             == ContainsFold(Listed(q, es), part, text, icpt, false)
    {
      var name, category, hit := ContainsOne(kind, fs, es, R, q[i], part, text);
      ContainsStep(q, i, es, part, text, icpt, acc, hit);
      acc := acc || hit;
      if !Proceeds(icpt, name, category, hit) {
        return;
      }
    }
    ListedEnd(q, es);
  }

  /** The loop of `match`, over the filters named in `q`, in order. */
  method MatchAll(ghost kind: FilterType, fs: map<string, WordsFilter>, ghost es: map<string, Entry>, ghost R: set<object>, q: seq<string>,
                  part: bool, text: string, icpt: Option<(string, string, set<string>) -> bool>) returns (acc: set<string>)
    requires FiltersValid(kind, fs, es, R) && (forall k :: 0 <= k < |q| ==> q[k] in fs)
    ensures acc == MatchFold(Listed(q, es), part, text, icpt, {})
  {
    acc := {};
    for i := 0 to |q|
      invariant MatchFold(Listed(q[i..], es), part, text, icpt, acc)
             == MatchFold(Listed(q, es), part, text, icpt, {})
    {
      var name, category, found := MatchOne(kind, fs, es, R, q[i], part, text);
      MatchStep(q, i, es, part, text, icpt, acc, found);
      acc := acc + found;
      if !Proceeds(icpt, name, category, found) {
        return;
      }
    }
    ListedEnd(q, es);
  }

  /** The loop of `highlight`, over the filters named in `q`, in order. */
  method HighlightAllFilters(ghost kind: FilterType, fs: map<string, WordsFilter>, ghost es: map<string, Entry>,
                             ghost R: set<object>, q: seq<string>, part: bool, content: string, order: set<string> -> seq<string>,
                             icpt: Option<(string, string, string) -> bool>) returns (text: string)
    requires FiltersValid(kind, fs, es, R) && (forall k :: 0 <= k < |q| ==> q[k] in fs) && IsIteration(order)
    requires forall n :: n in fs ==> LiteralWords(fs[n].words)
    requires AllClean(Listed(q, es))
    ensures text == HighlightFold(Listed(q, es), part, content, order, icpt)
  {
    text := content;
    for i := 0 to |q|
      invariant AllClean(Listed(q[i..], es))
      invariant HighlightFold(Listed(q[i..], es), part, text, order, icpt)
             == HighlightFold(Listed(q, es), part, content, order, icpt)
    {
      var name, category, out := HighlightOne(kind, fs, es, R, q[i], part, text, order);
      HighlightStep(q, i, es, part, text, order, icpt, out);
      text := out;
      if !Proceeds(icpt, name, category, text) {
        return;
      }
    }
    ListedEnd(q, es);
  }

  /** The loop of `filter`, over the filters named in `q`, in order. */
  method MaskAllFilters(ghost kind: FilterType, fs: map<string, WordsFilter>, ghost es: map<string, Entry>,
                        ghost R: set<object>, q: seq<string>, part: bool, content: string, m: char, order: set<string> -> seq<string>,
                        icpt: Option<(string, string, string) -> bool>) returns (text: string)
    requires FiltersValid(kind, fs, es, R) && (forall k :: 0 <= k < |q| ==> q[k] in fs) && IsIteration(order) && m != '$' && m != '\\'
    requires forall n :: n in fs ==> LiteralWords(fs[n].words)
    requires AllClean(Listed(q, es))
    ensures text == MaskFold(Listed(q, es), part, content, m, order, icpt)
  {
    text := content;
    for i := 0 to |q|
      invariant AllClean(Listed(q[i..], es))
      invariant MaskFold(Listed(q[i..], es), part, text, m, order, icpt)
             == MaskFold(Listed(q, es), part, content, m, order, icpt)
    {
      var name, category, out := MaskOne(kind, fs, es, R, q[i], part, text, m, order);
      MaskStep(q, i, es, part, text, m, order, icpt, out);
      text := out;
      if !Proceeds(icpt, name, category, text) {
        return;
      }
    }
    ListedEnd(q, es);
  }

  /** `build`: an empty context of the kind, then `createOrUpdate` of each
      word set in turn; the first failure ends the build. */
  method Build(kind: FilterType, sets: seq<WordsCategory>) returns (r: Result<DefaultWordsFilterContext, Error>)
    ensures r.Failure? <==> Refused(kind, sets)
    ensures r.Failure? ==> r.error.CreateWordsFilter?
    ensures r.Success? ==> fresh(r.value) && fresh(r.value.Repr) && r.value.Valid()
    ensures r.Success? ==> r.value.kind == kind && r.value.wordsCategories == Catalog(sets)
  {
    var context := new DefaultWordsFilterContext(kind);
    for i := 0 to |sets|
      invariant context.Valid() && fresh(context) && fresh(context.Repr)
      invariant context.kind == kind && context.wordsCategories == Catalog(sets[..i])
      invariant !Refused(kind, sets[..i])
    {
      CatalogStep(sets, i);
      RefusedStep(kind, sets, i);
      var u := context.CreateOrUpdate(sets[i]);
      if u.Failure? {
        return Failure(u.error);
      }
    }
    assert sets[..|sets|] == sets;
    return Success(context);
  }

  /** `DefaultWordsFilterContextStates`: the process-wide cache of
      contexts, one per backend kind. */
  class ContextCache {
    var contexts: map<FilterType, DefaultWordsFilterContext>
    ghost var Repr: set<object>

    ghost predicate Valid()
      reads this, Repr
    {
      this !in Repr && Holds(contexts, Repr)
    }

    /** Every cached context is valid, of its kind, held within `R`, and
        apart from the others and from the cache. */
    ghost predicate Holds(cs: map<FilterType, DefaultWordsFilterContext>, R: set<object>)
      reads R
    {
      && (forall t {:trigger cs[t]} :: t in cs ==>
            && cs[t] in R
            && cs[t].Repr <= R
            && this !in cs[t].Repr
            && cs[t].Valid()
            && cs[t].kind == t)
      && (forall t, u {:trigger cs[t], cs[u]} :: t in cs && u in cs && t != u ==>
            && cs[t] != cs[u]
            && cs[t] !in cs[u].Repr)
    }

    /** Widens the footprint of the cache. */
    ghost method SetRepr(R: set<object>)
      requires this !in R && Holds(contexts, R)
      modifies this
      ensures Valid() && Repr == R && contexts == old(contexts)
    {
      Repr := R;
    }

    constructor ()
      ensures Valid() && contexts == map[]
    {
      contexts := map[];
      Repr := {};
    }

    /** `getContext`: the context of a kind, or
        `WordsFilterContextNotInitializedException`. */
    method GetContext(t: FilterType) returns (r: Result<DefaultWordsFilterContext, Error>)
      ensures r.Failure? <==> t !in contexts
      ensures r.Failure? ==> r.error.ContextNotInitialized?
      ensures r.Success? ==> r.value == contexts[t]
    {
      if t !in contexts {
        return Failure(ContextNotInitialized("words filter context is not initialized"));
      }
      return Success(contexts[t]);
    }

    /** `reloadContext`: builds a new context and puts it in place of the
        old one; when the build fails nothing changes. */
    method ReloadContext(t: FilterType, sets: seq<WordsCategory>) returns (r: Result<DefaultWordsFilterContext, Error>)
      requires Valid()
      modifies this
      ensures Valid()
      ensures r.Failure? <==> Refused(t, sets)
      ensures r.Failure? ==> contexts == old(contexts)
      ensures r.Success? ==> fresh(r.value) && contexts == old(contexts)[t := r.value]
      ensures r.Success? ==> r.value.wordsCategories == Catalog(sets)
    {
      r := Build(t, sets);
      if r.Success? {
        Put(t, r.value);
      }
    }

    /** Puts a valid context, which shares no object with the cache, in
        place of the one of its kind. */
    method Put(t: FilterType, context: DefaultWordsFilterContext)
      requires Valid() && context.Valid() && context.kind == t
      requires context !in Repr && this !in context.Repr && context.Repr !! Repr
      modifies this
      ensures Valid() && contexts == old(contexts)[t := context] && Repr == old(Repr) + {context} + context.Repr
    {
      HoldsPut(t, context);
      contexts, Repr := contexts[t := context], Repr + {context} + context.Repr;
    }

    /** A valid context apart from the cache's objects can join them. */
    lemma HoldsPut(t: FilterType, context: DefaultWordsFilterContext)
      requires Valid() && context.Valid() && context.kind == t
      requires context !in Repr && this !in context.Repr && context.Repr !! Repr
      ensures Holds(contexts[t := context], Repr + {context} + context.Repr)
    {
      var cs, R := contexts[t := context], Repr + {context} + context.Repr;
      forall u | u in cs ensures cs[u] in R && cs[u].Repr <= R && this !in cs[u].Repr && cs[u].Valid() && cs[u].kind == u {
        if u != t {
          assert cs[u] == contexts[u];
        }
      }
    }

    /** `reloadFilter`: `createOrUpdate` on the context of the kind, which
        must be there. */
    method ReloadFilter(t: FilterType, wordSet: WordsCategory) returns (r: Result<WordsFilter, Error>)
      requires Valid()
      modifies this, contexts.Values
      ensures Valid() && contexts == old(contexts)
      ensures r.Failure? <==> t !in contexts || (t == TTMP && [] in wordSet.words)
      ensures t !in contexts ==> r.Failure? && r.error.ContextNotInitialized?
      ensures r.Success? ==> contexts[t].wordsCategories == old(contexts[t].wordsCategories)[wordSet.category := wordSet]
      ensures r.Success? ==> contexts[t].wordsFilters == old(contexts[t].wordsFilters)[r.value.name := r.value]
      ensures r.Failure? && t in contexts ==> r.error.CreateWordsFilter?
      ensures r.Failure? && t in contexts ==>
        contexts[t].wordsCategories == old(contexts[t].wordsCategories) && contexts[t].wordsFilters == old(contexts[t].wordsFilters)
      ensures forall u {:trigger contexts[u]} :: u in contexts && u != t ==> unchanged(contexts[u])
    {
      var c := GetContext(t);
      if c.Failure? {
        return Failure(c.error);
      }
      var context := c.value;
      r := context.CreateOrUpdate(wordSet);
      SetRepr(Repr + context.Repr);
    }

    /** `clear`: forgets every context. */
    method Clear()
      requires Valid()
      modifies this
      ensures Valid() && contexts == map[]
    {
      contexts := map[];
    }
  }
}
