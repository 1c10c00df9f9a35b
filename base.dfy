/**
 * `BaseWordsFilter`: what every backend shares. A filter is the category it
 * was built from, its name and one backend object; `contains`, `getWords`,
 * `highlight` and `filter` are written once on top of the backend's
 * `processor`, each with its own callback.
 *
 * The five backend classes are told apart by a tag (`Backend`), and what a
 * backend reports for a text is described without the heap by a `Scanner`
 * value, so that a context holding many filters can be specified by folds
 * over values.
 */
module Base {
  import opened Wrappers
  import opened JavaStrings
  import opened Words
  import opened Scan
  import TrieSpec
  import BucketSpec
  import DatSpec
  import TtmpSpec
  import Dfa
  import Tire
  import Bucket
  import Dat
  import Ttmp

  /** The backends a context can be built with (`SIMHASH` is not part of
      this model). */
  datatype FilterType = DFA | TIRE | HASH_BUCKET | DAT | TTMP

  /** A built backend object, tagged by its class. */
  datatype Backend =
    | DfaBackend(dfa: Dfa.DfaFilter)
    | TireBackend(tire: Tire.TireTreeFilter)
    | BucketBackend(bucket: Bucket.HashBucketFilter)
    | DatBackend(dat: Dat.DatFilter)
    | TtmpBackend(ttmp: Ttmp.TtmpFilter)

  function KindOf(b: Backend): FilterType {
    match b
    case DfaBackend(_) => DFA
    case TireBackend(_) => TIRE
    case BucketBackend(_) => HASH_BUCKET
    case DatBackend(_) => DAT
    case TtmpBackend(_) => TTMP
  }

  /** The backend object itself. */
  function Obj(b: Backend): object {
    match b
    case DfaBackend(d) => d
    case TireBackend(t) => t
    case BucketBackend(h) => h
    case DatBackend(d) => d
    case TtmpBackend(t) => t
  }

  /** The objects that hold what a backend reports: the backend object, and
      the cache node of TTMP whose fields hold the tables. */
  function Holders(b: Backend): set<object> {
    match b
    case TtmpBackend(t) => {t, t.state}
    case _ => {Obj(b)}
  }

  /** Every object the backend's state lives in. */
  ghost function Frame(b: Backend): set<object>
    reads Obj(b)
  {
    match b
    case DfaBackend(d) => {d} + d.nodes.Values
    case TireBackend(t) => {t, t.root} + t.nodes.Values
    case BucketBackend(h) => {h}
    case DatBackend(d) => {d, d.state}
    case TtmpBackend(t) => {t, t.state}
  }

  ghost predicate BackendValid(b: Backend)
    reads Obj(b), Frame(b)
  {
    match b
    case DfaBackend(d) => d.Valid()
    case TireBackend(t) => t.Valid()
    case BucketBackend(h) => h.Valid()
    case DatBackend(d) => d.Valid()
    case TtmpBackend(t) => t.Valid()
  }

  /** What a backend reports, as a value: the stored words of the three
      word-set backends, or the bit tables of TTMP. DFA and TIRE scan the
      same way. */
  datatype Scanner =
    | TrieScanner(ws: set<string>)
    | BucketScanner(ws: set<string>)
    | DatScanner(ws: set<string>)
    | TtmpScanner(T: TtmpSpec.Tables)

  ghost function ScannerOf(b: Backend): Scanner
    reads Holders(b)
  {
    match b
    case DfaBackend(d) => TrieScanner(d.Words)
    case TireBackend(t) => TrieScanner(t.Words)
    case BucketBackend(h) => BucketScanner(h.Words)
    case DatBackend(d) => DatScanner(d.Words)
    case TtmpBackend(t) => TtmpScanner(t.state.Tables())
  }

  /** The words one `processor` call passes to its callback, in order, when
      the callback never stops it. */
  ghost function Reports(sc: Scanner, part: bool, content: string): seq<string> {
    match sc
    case TrieScanner(ws) => TrieSpec.ScanReports(ws, part, content)
    case BucketScanner(ws) => BucketSpec.BucketReports(ws, part, content)
    case DatScanner(ws) => DatSpec.DatReports(ws, DatSpec.AllChars(ws), part, content)
    case TtmpScanner(T) => TtmpSpec.TtmpReports(T, part, content)
  }

  /** The words a backend of the given kind keeps from a word set: TTMP
      keeps them as given, the others trim them and drop the short ones. */
  ghost function Stored(kind: FilterType, wordSet: WordsCategory): set<string> {
    if kind == TTMP then wordSet.words else StoredWords(wordSet.words)
  }

  /** The scanner a backend of the given kind builds from a word set. */
  ghost predicate Built(kind: FilterType, wordSet: WordsCategory, sc: Scanner) {
    match kind
    case DFA => sc == TrieScanner(Stored(kind, wordSet))
    case TIRE => sc == TrieScanner(Stored(kind, wordSet))
    case HASH_BUCKET => sc == BucketScanner(Stored(kind, wordSet))
    case DAT => sc == DatScanner(Stored(kind, wordSet))
    case TTMP => sc.TtmpScanner? && TtmpSpec.Holds(sc.T, wordSet.words)
  }

  /** Every reported word is a non-empty stored word that occurs in the
      trimmed text. */
  lemma ReportsSound(kind: FilterType, wordSet: WordsCategory, sc: Scanner, part: bool, content: string, x: string)
    requires Built(kind, wordSet, sc) && x in Reports(sc, part, content)
    ensures x != [] && x in Stored(kind, wordSet) && Occurs(x, Trim(content))
  {
    match sc
    case TrieScanner(ws) => TrieSpec.ScanReportsSound(ws, part, content, x);
    case BucketScanner(ws) => BucketSpec.BucketReportsSound(ws, part, content, x);
    case DatScanner(ws) => DatSpec.DatReportsSound(ws, DatSpec.AllChars(ws), part, content, x);
    case TtmpScanner(T) =>
      TtmpSpec.TtmpReportsSpec(T, wordSet.words, part, content, x);
      var rounds := TtmpSpec.Rounds(Trim(content), T, part, 0);
      var k :| 0 <= k < |rounds| && OccursAt(Trim(content), x, rounds[k]);
      assert 0 <= rounds[k] <= |Trim(content)|;
  }

  /** No backend reports the empty word. */
  lemma ReportsNonEmpty(kind: FilterType, wordSet: WordsCategory, sc: Scanner, part: bool, content: string)
    requires Built(kind, wordSet, sc)
    ensures forall x :: x in Reports(sc, part, content) ==> x != []
  {
    forall x | x in Reports(sc, part, content) ensures x != [] {
      ReportsSound(kind, wordSet, sc, part, content, x);
    }
  }

  /** In thorough mode the DFA, TIRE, HASH_BUCKET and DAT backends report
      exactly the stored words that occur in the trimmed text (TTMP can
      skip some, see `TtmpSpec.CountSkipsWord`). */
  lemma ThoroughFindsAll(kind: FilterType, wordSet: WordsCategory, sc: Scanner, content: string, x: string)
    requires kind != TTMP && Built(kind, wordSet, sc) && !Unscanned(content)
    ensures x in Reports(sc, false, content) <==> x in Stored(kind, wordSet) && Occurs(x, Trim(content))
  {
    var t := Trim(content);
    var ws := Stored(kind, wordSet);
    match sc {
      case TrieScanner(_) => TrieSpec.ReportsThorough(t, ws, 0);
      case BucketScanner(_) =>
        BucketSpec.ScanThorough(t, ws, 0, []);
        assert [] + Occurrences(t, 0, ws) == Occurrences(t, 0, ws);
      case DatScanner(_) =>
        DatSpec.AllCharsCover(ws);
        DatSpec.OuterThorough(t, ws, DatSpec.AllChars(ws), 0, []);
        assert [] + Occurrences(t, 0, ws) == Occurrences(t, 0, ws);
    }
    OccurrencesSpec(t, 0, ws, x);
  }

  /** The name a filter gets: the format `%s|%s` applied to the name field,
      which is still null while the constructor runs, and the category. */
  function FilterName(category: string): (r: string)
    ensures |r| == |category| + 5
  {
    "null|" + category
  }

  /** Two filters have the same name exactly when they have the same
      category, so a context keyed by name holds one filter per category. */
  lemma FilterNameInjective(a: string, b: string)
    ensures FilterName(a) == FilterName(b) <==> a == b
  {
    if FilterName(a) == FilterName(b) {
      assert a == FilterName(a)[5..];
    }
  }

  /** A filter: its word set, its name and its backend. */
  datatype WordsFilter = WordsFilter(words: WordsCategory, name: string, backend: Backend)

  ghost predicate Valid(f: WordsFilter)
    reads Obj(f.backend), Frame(f.backend)
  {
    && BackendValid(f.backend)
    && f.name == FilterName(f.words.category)
    && Built(KindOf(f.backend), f.words, ScannerOf(f.backend))
  }

  /** What the filter reports for a text. */
  ghost function Found(f: WordsFilter, part: bool, content: string): seq<string>
    reads Holders(f.backend)
  {
    Reports(ScannerOf(f.backend), part, content)
  }

  /** The filter built for a word set: the backend's constructor, and the
      failure of that constructor turned into `CreateWordsFilterException`.
      Only TTMP can fail, on an empty word. */
  method BuildFilter(kind: FilterType, wordSet: WordsCategory) returns (r: Result<WordsFilter, Error>)
    ensures r.Failure? <==> kind == TTMP && [] in wordSet.words
    ensures r.Failure? ==> r.error.CreateWordsFilter?
    ensures r.Success? ==> r.value.words == wordSet && KindOf(r.value.backend) == kind
    ensures r.Success? ==> Valid(r.value) && fresh(Frame(r.value.backend))
  {
    var name := FilterName(wordSet.category);
    match kind
    case DFA =>
      var f := NewDfaFilter(wordSet);
      r := Success(f);
    case TIRE =>
      var f := NewTireFilter(wordSet);
      r := Success(f);
    case HASH_BUCKET =>
      var h := new Bucket.HashBucketFilter(wordSet);
      r := Success(WordsFilter(wordSet, name, BucketBackend(h)));
    case DAT =>
      var d := new Dat.DatFilter(wordSet);
      r := Success(WordsFilter(wordSet, name, DatBackend(d)));
    case TTMP =>
      var t := Ttmp.NewTtmpFilter(wordSet);
      if t.Failure? {
        r := Failure(CreateWordsFilter("failed to create the WordsFilter object"));
      } else {
        r := Success(WordsFilter(wordSet, name, TtmpBackend(t.value)));
      }
  }

  /** The DFA filter of a word set. */
  method NewDfaFilter(wordSet: WordsCategory) returns (f: WordsFilter)
    ensures f.words == wordSet && KindOf(f.backend) == DFA
    ensures Valid(f) && fresh(Frame(f.backend))
  {
    var d := new Dfa.DfaFilter(wordSet);
    f := WordsFilter(wordSet, FilterName(wordSet.category), DfaBackend(d));
  }

  /** The Tire filter of a word set. */
  method NewTireFilter(wordSet: WordsCategory) returns (f: WordsFilter)
    ensures f.words == wordSet && KindOf(f.backend) == TIRE
    ensures Valid(f) && fresh(Frame(f.backend))
  {
    var t := new Tire.TireTreeFilter(wordSet);
    f := WordsFilter(wordSet, FilterName(wordSet.category), TireBackend(t));
  }

  /** `processor` of the filter's backend. */
  method Processor(f: WordsFilter, part: bool, content: string, stop: string -> bool) returns (r: bool, calls: seq<string>)
    requires Valid(f)
    ensures calls == UpTo(Found(f, part, content), stop)
    ensures r == AnyStop(Found(f, part, content), stop)
  {
    match f.backend
    case DfaBackend(d) => r, calls := d.Processor(part, content, stop);
    case TireBackend(t) => r, calls := t.Processor(part, content, stop);
    case BucketBackend(h) => r, calls := h.Processor(part, content, stop);
    case DatBackend(d) => r, calls := d.Processor(part, content, stop);
    case TtmpBackend(t) => r, calls := t.Processor(part, content, stop);
  }

  /** `contains`: the callback stops at the first word, so the answer is
      whether there is one. */
  method Contains(f: WordsFilter, part: bool, content: string) returns (r: bool)
    requires Valid(f)
    ensures r <==> Found(f, part, content) != []
  {
    var calls;
    r, calls := Processor(f, part, content, _ => true);
    UpToStopAtOnce(Found(f, part, content));
  }

  /** `getWords`: the callback collects every word into a set and never
      stops. */
  method GetWords(f: WordsFilter, part: bool, content: string) returns (words: set<string>)
    requires Valid(f)
    ensures words == Elements(Found(f, part, content))
    ensures forall x :: x in words ==> x != []
  {
    FoundWordsNonEmpty(f, part, content);
    var _, calls := Processor(f, part, content, _ => false);
    UpToNeverStop(Found(f, part, content));
    words := Elements(calls);
  }

  /** Every word a filter finds is non-empty. */
  lemma FoundWordsNonEmpty(f: WordsFilter, part: bool, content: string)
    requires Valid(f)
    ensures forall x :: x in Elements(Found(f, part, content)) ==> x != []
  {
    forall x | x in Elements(Found(f, part, content)) ensures x != [] {
      FoundSpec(f, part, content, x);
    }
  }

  /** A filter finds something exactly when `getWords` returns a word, and
      every word it returns is a stored word of the filter that occurs in
      the trimmed text. */
  lemma FoundSpec(f: WordsFilter, part: bool, content: string, x: string)
    requires Valid(f)
    ensures Found(f, part, content) != [] <==> Elements(Found(f, part, content)) != {}
    ensures x in Elements(Found(f, part, content)) ==>
      x != [] && x in Stored(KindOf(f.backend), f.words) && Occurs(x, Trim(content))
  {
    var found := Found(f, part, content);
    if found != [] {
      assert found[0] in Elements(found);
    }
    if x in Elements(found) {
      ReportsSound(KindOf(f.backend), f.words, ScannerOf(f.backend), part, content, x);
    }
  }

  // -----------------------------------------------------------------------
  // highlight and filter
  // -----------------------------------------------------------------------

  /** The characters `String.replaceAll` treats as regular-expression
      syntax in a pattern, or as group references in a replacement. */
  const RegexSyntax: set<char> := {'\\', '^', '$', '.', '|', '?', '*', '+', '(', ')', '[', ']', '{', '}'}

  /** A word that `replaceAll` matches literally. */
  predicate Literal(w: string) {
    forall i :: 0 <= i < |w| ==> w[i] !in RegexSyntax
  }

  /** A word set whose words `replaceAll` matches literally. */
  predicate LiteralWords(wordSet: WordsCategory) {
    forall w :: w in wordSet.words ==> Literal(w)
  }

  /** The words a backend reports are cut from the stored words, so they are
      literal when those are. */
  lemma ReportsLiteral(kind: FilterType, wordSet: WordsCategory, sc: Scanner, part: bool, content: string, x: string)
    requires Built(kind, wordSet, sc) && LiteralWords(wordSet) && x in Reports(sc, part, content)
    ensures Literal(x)
  {
    ReportsSound(kind, wordSet, sc, part, content, x);
    if kind != TTMP {
      StoredWordsSpec(wordSet.words, x);
      var w :| w in wordSet.words && Accepted(w) && Trim(w) == x;
      TrimIsSlice(w);
      var lo :| OccursAt(w, x, lo);
      forall i | 0 <= i < |x| ensures x[i] !in RegexSyntax {
        assert x[i] == w[lo..lo + |x|][i] == w[lo + i];
      }
    }
  }

  /** `q` lists the elements of `s`, each once: how a `HashSet` iterates. */
  ghost predicate Enumerates(q: seq<string>, s: set<string>) {
    && (forall k, l :: 0 <= k < l < |q| ==> q[k] != q[l])
    && (forall x :: x in q <==> x in s)
  }

  /** The iteration order of a `HashSet`, as a function of its contents. */
  ghost predicate IsIteration(order: set<string> -> seq<string>) {
    forall s :: Enumerates(order(s), s)
  }

  predicate NonEmptyWords(q: seq<string>) {
    forall k :: 0 <= k < |q| ==> q[k] != []
  }

  const HighlightOpen: string := "<font color='red'>"
  const HighlightClose: string := "</font>"

  /** `HTML_HIGHLIGHT` with the word in place of `%s`. */
  function Highlighted(w: string): string {
    HighlightOpen + w + HighlightClose
  }

  /** The text after wrapping every occurrence of each word of `q`, one word
      after the other. */
  function HighlightAll(s: string, q: seq<string>): string
    requires NonEmptyWords(q)
    decreases |q|
  {
    if q == [] then s else HighlightAll(ReplaceAll(s, q[0], Highlighted(q[0])), q[1..])
  }

  /** The text after overwriting every occurrence of each word of `q` with
      as many copies of `m`, one word after the other. */
  function MaskAll(s: string, q: seq<string>, m: char): string
    requires NonEmptyWords(q)
    decreases |q|
  {
    if q == [] then s else MaskAll(ReplaceAll(s, q[0], Repeat(m, |q[0]|)), q[1..], m)
  }

  /** The words of a set in iteration order are non-empty when the set's
      are. */
  lemma IterationNonEmpty(order: set<string> -> seq<string>, words: set<string>)
    requires IsIteration(order) && forall x :: x in words ==> x != []
    ensures NonEmptyWords(order(words))
  {
    var q := order(words);
    forall k | 0 <= k < |q| ensures q[k] != [] {
      assert q[k] in q;
    }
  }

  /** Iterating over no words yields no words. */
  lemma IterationOfNothing(order: set<string> -> seq<string>)
    requires IsIteration(order)
    ensures order({}) == []
  {
    var q := order({});
    if q != [] {
      FirstListed(q);
      assert false;
    }
  }

  lemma FirstListed(q: seq<string>)
    requires q != []
    ensures q[0] in q
  {
  }

  /** `highlight`: every word `getWords` finds, in the set's iteration
      order, is wrapped in `HTML_HIGHLIGHT` wherever it occurs. The words
      of the category must be plain text for `replaceAll`. */
  method Highlight(f: WordsFilter, part: bool, content: string, order: set<string> -> seq<string>) returns (r: string)
    requires Valid(f) && IsIteration(order) && LiteralWords(f.words)
    ensures NonEmptyWords(order(Elements(Found(f, part, content))))
    ensures r == HighlightAll(content, order(Elements(Found(f, part, content))))
  {
    var words := GetWords(f, part, content);
    IterationNonEmpty(order, words);
    var q := order(words);
    r := content;
    for i := 0 to |q|
      invariant HighlightAll(r, q[i..]) == HighlightAll(content, q)
    {
      assert q[i..][1..] == q[i + 1..];
      r := ReplaceAll(r, q[i], Highlighted(q[i]));
    }
    assert q[|q|..] == [];
  }

  /** `filter`: every word `getWords` finds, in the set's iteration order,
      is overwritten by `replaceChar` wherever it occurs. The words of the
      category must be plain text for `replaceAll`, and so must the
      replacement. */
  method Filter(f: WordsFilter, part: bool, content: string, m: char, order: set<string> -> seq<string>) returns (r: string)
    requires Valid(f) && IsIteration(order) && LiteralWords(f.words)
    requires m != '$' && m != '\\'
    ensures NonEmptyWords(order(Elements(Found(f, part, content))))
    ensures r == MaskAll(content, order(Elements(Found(f, part, content))), m)
  {
    var words := GetWords(f, part, content);
    IterationNonEmpty(order, words);
    var q := order(words);
    r := content;
    for i := 0 to |q|
      invariant MaskAll(r, q[i..], m) == MaskAll(content, q, m)
    {
      assert q[i..][1..] == q[i + 1..];
      r := ReplaceAll(r, q[i], Repeat(m, |q[i]|));
    }
    assert q[|q|..] == [];
  }

  /** Masking keeps the length of the text and changes characters only into
      `m`. */
  lemma {:induction false} MaskAllShape(s: string, q: seq<string>, m: char)
    requires NonEmptyWords(q)
    ensures |MaskAll(s, q, m)| == |s|
    ensures forall k :: 0 <= k < |s| ==> MaskAll(s, q, m)[k] in {s[k], m}
    decreases |q|
  {
    if q != [] {
      var s' := ReplaceAll(s, q[0], Repeat(m, |q[0]|));
      MaskShape(s, q[0], m);
      MaskAllShape(s', q[1..], m);
      forall k | 0 <= k < |s| ensures MaskAll(s, q, m)[k] in {s[k], m} {
        assert MaskAll(s, q, m)[k] in {s'[k], m};
      }
    }
  }

  /** Masking does not make a word occur that did not occur before, as long
      as the word does not contain `m`. */
  lemma MaskKeepsAbsent(s: string, out: string, v: string, m: char)
    requires |out| == |s| && forall k :: 0 <= k < |s| ==> out[k] in {s[k], m}
    requires m !in v && !Occurs(v, s)
    ensures !Occurs(v, out)
  {
    forall p | 0 <= p <= |out| ensures !OccursAt(out, v, p) {
      if p + |v| <= |out| {
        assert !OccursAt(s, v, p);
        var k :| 0 <= k < |v| && s[p..p + |v|][k] != v[k];
        assert out[p..p + |v|][k] != v[k];
      }
    }
  }

  /** After `filter`, no word it masked occurs any more, provided the
      replacement character is not part of it. */
  lemma {:induction false} MaskAllRemoves(s: string, q: seq<string>, m: char, v: string)
    requires NonEmptyWords(q)
    requires v in q && m !in v
    ensures !Occurs(v, MaskAll(s, q, m))
    decreases |q|
  {
    var s' := ReplaceAll(s, q[0], Repeat(m, |q[0]|));
    if q[0] == v {
      MaskRemovesWord(s, v, m);
      MaskAllShape(s', q[1..], m);
      MaskKeepsAbsent(s', MaskAll(s', q[1..], m), v, m);
    } else {
      assert v in q[1..];
      MaskAllRemoves(s', q[1..], m, v);
    }
  }

  /** Highlighting one word lengthens the text by the markup around each
      occurrence: 25 characters each. */
  lemma HighlightOneLength(s: string, w: string)
    requires w != []
    ensures |ReplaceAll(s, w, Highlighted(w))| == |s| + 25 * Count(s, w)
  {
    ReplaceAllLength(s, w, Highlighted(w));
  }

  /** A text in which none of the words occurs comes back unchanged. */
  lemma {:induction false} HighlightAbsent(s: string, q: seq<string>)
    requires NonEmptyWords(q)
    requires forall k :: 0 <= k < |q| ==> !Occurs(q[k], s)
    ensures HighlightAll(s, q) == s
    decreases |q|
  {
    if q != [] {
      ReplaceAbsent(s, q[0], Highlighted(q[0]));
      HighlightAbsent(s, q[1..]);
    }
  }
}
