/**
 * `WordsCategory` and its identical twin `NamedWords`: an immutable
 * (category, words) pair whose constructor validates its arguments.
 */
module Words {
  import opened Wrappers
  import opened JavaStrings

  /** The category label and the deduplicated words. Both fields are final
      in the source and a datatype value cannot change, so the getters are
      the field selectors. */
  datatype WordsCategory = WordsCategory(category: string, words: set<string>)

  /** `NamedWords` is the same class under another name. */
  type NamedWords = WordsCategory

  /** The set `ImmutableSet.copyOf` builds from the given collection. */
  function Elements(ws: seq<string>): set<string> {
    set i | 0 <= i < |ws| :: ws[i]
  }

  /** The validating constructor; a null argument is `None`. It rejects a
      null or empty category and a null or empty word collection, and keeps
      the words as a set. */
  function NewWordsCategory(category: Option<string>, words: Option<seq<string>>): (r: Result<WordsCategory, Error>)
    ensures r.Failure? <==> category.None? || category.value == [] || words.None? || words.value == []
    ensures r.Failure? ==> r.error.IllegalArgument?
    ensures r.Success? ==> r.value.category == category.value
    ensures r.Success? ==> forall w :: w in r.value.words <==> exists i :: 0 <= i < |words.value| && words.value[i] == w
    ensures r.Success? ==> r.value.words != {}
  {
    if IsNullOrEmpty(category) then
      Failure(IllegalArgument("category must not be empty"))
    else if words.None? || words.value == [] then
      Failure(IllegalArgument("words must not be empty"))
    else
      assert words.value[0] in Elements(words.value);
      Success(WordsCategory(category.value, Elements(words.value)))
  }

  /** Deduplication never adds words: the stored set is no larger than the
      given collection. */
  lemma {:induction false} ElementsSize(ws: seq<string>)
    ensures |Elements(ws)| <= |ws|
    decreases |ws|
  {
    if ws != [] {
      var last := ws[|ws| - 1];
      ElementsSize(ws[..|ws| - 1]);
      assert Elements(ws) == Elements(ws[..|ws| - 1]) + {last};
    }
  }

  /** Only emptiness is checked: a category made of spaces and a blank word
      entry are accepted. */
  lemma BlankAccepted()
    ensures NewWordsCategory(Some(" "), Some([" ", "ab"])).Success?
    ensures " " in NewWordsCategory(Some(" "), Some([" ", "ab"])).value.words
  {
    var ws := [" ", "ab"];
    assert ws[0] == " ";
  }
}
