/**
 * The scan of `DatFilter` over its two sets: the characters of the stored
 * words and the stored words themselves. From every start whose character
 * is in the character set, the candidate is extended one character at a
 * time while the next character is in the set too, and every candidate
 * that is a stored word is reported.
 */
module DatSpec {
  import opened JavaStrings
  import opened Scan

  /** The characters of one word. */
  ghost function CharsOf(w: string): set<char> {
    set k | 0 <= k < |w| :: w[k]
  }

  /** The characters of all the stored words. */
  ghost function AllChars(ws: set<string>): set<char> {
    set w, k | w in ws && 0 <= k < |w| :: w[k]
  }

  /** Storing a word adds exactly its characters. */
  lemma AllCharsAdd(ws: set<string>, w: string)
    ensures AllChars(ws + {w}) == AllChars(ws) + CharsOf(w)
  {
    forall c | c in AllChars(ws + {w}) ensures c in AllChars(ws) + CharsOf(w) {
      var x, k :| x in ws + {w} && 0 <= k < |x| && x[k] == c;
      if x != w {
        assert c in AllChars(ws);
      }
    }
    forall c | c in CharsOf(w) ensures c in AllChars(ws + {w}) {
      var k :| 0 <= k < |w| && w[k] == c;
      assert w in ws + {w};
    }
  }

  /** Every character of every stored word is in `cs`. */
  ghost predicate Covers(ws: set<string>, cs: set<char>) {
    forall w :: w in ws ==> CharsOf(w) <= cs
  }

  /** The characters of all the stored words cover them. */
  lemma AllCharsCover(ws: set<string>)
    ensures Covers(ws, AllChars(ws))
  {
    forall w, c | w in ws && c in CharsOf(w) ensures c in AllChars(ws) {
      var k :| 0 <= k < |w| && w[k] == c;
    }
  }

  /** The outer loop of the scan from start `i`: a start whose character is
      not in `cs` is passed over, otherwise the candidates from it are
      extended. */
  ghost function Outer(t: string, ws: set<string>, cs: set<char>, part: bool, i: nat, acc: seq<string>): seq<string>
    decreases |t| + 1 - i, |t| + 1 - i
  {
    if i >= |t| then acc
    else if t[i] !in cs then Outer(t, ws, cs, part, i + 1, acc)
    else Inner(t, ws, cs, part, i, i + 1, acc)
  }

  /** The inner loop at start `i` and candidate end `j` (the candidate is
      `t[i..j+1]`): it ends at the end of the text or at a character not in
      `cs`, and the outer loop goes on from `i + 1`. A candidate that is a
      stored word is reported, and with `part` the start jumps to `j + 1`
      while the inner loop goes on. */
  ghost function Inner(t: string, ws: set<string>, cs: set<char>, part: bool, i: nat, j: nat, acc: seq<string>): seq<string>
    requires i <= j <= |t|
    decreases |t| + 1 - i, |t| + 1 - j
  {
    if j >= |t| || t[j] !in cs then Outer(t, ws, cs, part, i + 1, acc)
    else
      var w := t[i..j + 1];
      if w in ws then Inner(t, ws, cs, part, if part then j + 1 else i, j + 1, acc + [w])
      else Inner(t, ws, cs, part, i, j + 1, acc)
  }

  /** One step of the inner loop: it ends at the end of the text or at a
      character outside `cs`. */
  lemma InnerEnd(t: string, ws: set<string>, cs: set<char>, part: bool, i: nat, j: nat, acc: seq<string>)
    requires i <= j <= |t| && (j == |t| || t[j] !in cs)
    ensures Inner(t, ws, cs, part, i, j, acc) == Outer(t, ws, cs, part, i + 1, acc)
  {
  }

  /** One step of the inner loop: a candidate that is a stored word is
      reported. */
  lemma InnerHit(t: string, ws: set<string>, cs: set<char>, part: bool, i: nat, j: nat, acc: seq<string>)
    requires i <= j < |t| && t[j] in cs && t[i..j + 1] in ws
    ensures Inner(t, ws, cs, part, i, j, acc) == Inner(t, ws, cs, part, if part then j + 1 else i, j + 1, acc + [t[i..j + 1]])
  {
  }

  /** One step of the inner loop: a candidate that is not a stored word is
      passed over. */
  lemma InnerMiss(t: string, ws: set<string>, cs: set<char>, part: bool, i: nat, j: nat, acc: seq<string>)
    requires i <= j < |t| && t[j] in cs && t[i..j + 1] !in ws
    ensures Inner(t, ws, cs, part, i, j, acc) == Inner(t, ws, cs, part, i, j + 1, acc)
  {
  }

  /** The reports of a whole `processor` call. */
  ghost function DatReports(ws: set<string>, cs: set<char>, part: bool, content: string): seq<string> {
    if Unscanned(content) then [] else Outer(Trim(content), ws, cs, part, 0, [])
  }

  /** The reports carried in are kept. */
  lemma {:induction false} OuterPrefix(t: string, ws: set<string>, cs: set<char>, part: bool, i: nat, acc: seq<string>)
    ensures Prefix(acc, Outer(t, ws, cs, part, i, acc))
    decreases |t| + 1 - i, |t| + 1 - i
  {
    if i < |t| {
      if t[i] !in cs {
        OuterPrefix(t, ws, cs, part, i + 1, acc);
      } else {
        InnerPrefix(t, ws, cs, part, i, i + 1, acc);
      }
    }
  }

  /** The callback stops at the word reported after `calls`. */
  lemma StopsWith(all: seq<string>, calls: seq<string>, word: string, stop: string -> bool)
    requires Prefix(calls + [word], all) && !AnyStop(calls, stop) && stop(word)
    ensures UpTo(all, stop) == calls + [word] && AnyStop(all, stop)
  {
    assert (calls + [word])[..|calls|] == calls;
    UpToStopped(all, calls + [word], stop);
  }

  lemma {:induction false} InnerPrefix(t: string, ws: set<string>, cs: set<char>, part: bool, i: nat, j: nat, acc: seq<string>)
    requires i <= j <= |t|
    ensures Prefix(acc, Inner(t, ws, cs, part, i, j, acc))
    decreases |t| + 1 - i, |t| + 1 - j
  {
    if j >= |t| || t[j] !in cs {
      OuterPrefix(t, ws, cs, part, i + 1, acc);
    } else {
      var w := t[i..j + 1];
      if w in ws {
        InnerPrefix(t, ws, cs, part, if part then j + 1 else i, j + 1, acc + [w]);
        PrefixTrans(acc, acc + [w], Inner(t, ws, cs, part, if part then j + 1 else i, j + 1, acc + [w]));
      } else {
        InnerPrefix(t, ws, cs, part, i, j + 1, acc);
      }
    }
  }

  /** Every report is a stored word occurring in the text. */
  lemma {:induction false} OuterSound(t: string, ws: set<string>, cs: set<char>, part: bool, i: nat, acc: seq<string>, x: string)
    requires x in Outer(t, ws, cs, part, i, acc)
    ensures x in acc || (x in ws && Occurs(x, t))
    decreases |t| + 1 - i, |t| + 1 - i
  {
    if i < |t| {
      if t[i] !in cs {
        OuterSound(t, ws, cs, part, i + 1, acc, x);
      } else {
        InnerSound(t, ws, cs, part, i, i + 1, acc, x);
      }
    }
  }

  lemma {:induction false} InnerSound(t: string, ws: set<string>, cs: set<char>, part: bool, i: nat, j: nat, acc: seq<string>, x: string)
    requires i <= j <= |t|
    requires x in Inner(t, ws, cs, part, i, j, acc)
    ensures x in acc || (x in ws && Occurs(x, t))
    decreases |t| + 1 - i, |t| + 1 - j
  {
    if j >= |t| || t[j] !in cs {
      OuterSound(t, ws, cs, part, i + 1, acc, x);
    } else {
      var w := t[i..j + 1];
      if w in ws {
        InnerSound(t, ws, cs, part, if part then j + 1 else i, j + 1, acc + [w], x);
        if x !in acc && x in acc + [w] {
          assert x == w && OccursAt(t, w, i);
        }
      } else {
        InnerSound(t, ws, cs, part, i, j + 1, acc, x);
      }
    }
  }

  /** Every report of a call is a stored word occurring in the trimmed
      content; unscanned content reports nothing. */
  lemma DatReportsSound(ws: set<string>, cs: set<char>, part: bool, content: string, x: string)
    requires x in DatReports(ws, cs, part, content)
    ensures !Unscanned(content) && x in ws && Occurs(x, Trim(content))
  {
    OuterSound(Trim(content), ws, cs, part, 0, [], x);
  }

  /** No stored word of length `j + 1 - i` or more starts at `i` once the
      text at `j` is a character outside `cs`. */
  lemma OutsideEnds(t: string, ws: set<string>, cs: set<char>, i: nat, j: nat)
    requires i <= j < |t| && t[j] !in cs && Covers(ws, cs)
    ensures OccurrencesAt(t, i, j + 1 - i, ws) == []
  {
    forall w | w in ws && |w| >= j + 1 - i ensures w[..j + 1 - i] != t[i..j + 1] {
      assert w[..j + 1 - i][j - i] == w[j - i];
      assert w[j - i] in CharsOf(w);
      assert t[i..j + 1][j - i] == t[j];
    }
    OccurrencesAtNone(t, i, j + 1 - i, j + 1 - i, ws);
  }

  /** Without `part`, and with every character of every stored word in
      `cs`, the scan reports every occurrence of every stored word, as the
      trie backends do. */
  lemma {:induction false} OuterThorough(t: string, ws: set<string>, cs: set<char>, i: nat, acc: seq<string>)
    requires Covers(ws, cs) && LongWords(ws) && i <= |t|
    ensures Outer(t, ws, cs, false, i, acc) == acc + Occurrences(t, i, ws)
    decreases |t| + 1 - i, |t| + 1 - i
  {
    if i == |t| {
      assert acc + [] == acc;
    } else {
      var occ := OccurrencesAt(t, i, 1, ws);
      var rest := Occurrences(t, i + 1, ws);
      assert Occurrences(t, i, ws) == occ + rest;
      if t[i] !in cs {
        OutsideEnds(t, ws, cs, i, i);
        OuterThorough(t, ws, cs, i + 1, acc);
        AppendEmpty(occ, rest);
      } else {
        OccurrencesAtLong(t, i, ws);
        InnerThorough(t, ws, cs, i, i + 1, acc);
        AppendAssoc(acc, occ, rest);
      }
    }
  }

  lemma {:induction false} InnerThorough(t: string, ws: set<string>, cs: set<char>, i: nat, j: nat, acc: seq<string>)
    requires Covers(ws, cs) && LongWords(ws) && i < j <= |t|
    ensures Inner(t, ws, cs, false, i, j, acc) == acc + (OccurrencesAt(t, i, j + 1 - i, ws) + Occurrences(t, i + 1, ws))
    decreases |t| + 1 - i, |t| + 1 - j
  {
    if j == |t| || t[j] !in cs {
      OuterThorough(t, ws, cs, i + 1, acc);
      InnerEndStep(t, ws, cs, i, j, acc);
    } else {
      InnerThorough(t, ws, cs, i, j + 1, Carried(t, ws, i, j, acc));
      InnerStep(t, ws, cs, i, j, acc);
    }
  }

  /** What the inner loop carries on after looking at `t[i..j+1]`. */
  ghost function Carried(t: string, ws: set<string>, i: nat, j: nat, acc: seq<string>): seq<string>
    requires i <= j < |t|
  {
    if t[i..j + 1] in ws then acc + [t[i..j + 1]] else acc
  }

  /** One look of the inner loop: a hit is the next occurrence at the start,
      a miss is none. */
  lemma InnerStep(t: string, ws: set<string>, cs: set<char>, i: nat, j: nat, acc: seq<string>)
    requires i < j < |t| && t[j] in cs
    requires Inner(t, ws, cs, false, i, j + 1, Carried(t, ws, i, j, acc))
      == Carried(t, ws, i, j, acc) + (OccurrencesAt(t, i, j + 1 + 1 - i, ws) + Occurrences(t, i + 1, ws))
    ensures Inner(t, ws, cs, false, i, j, acc) == acc + (OccurrencesAt(t, i, j + 1 - i, ws) + Occurrences(t, i + 1, ws))
  {
    if t[i..j + 1] in ws {
      InnerHitStep(t, ws, cs, i, j, acc);
    } else {
      InnerMissStep(t, ws, cs, i, j, acc);
    }
  }

  /** The end of the inner loop: no occurrence at its start goes on. */
  lemma InnerEndStep(t: string, ws: set<string>, cs: set<char>, i: nat, j: nat, acc: seq<string>)
    requires Covers(ws, cs) && i < j <= |t| && (j == |t| || t[j] !in cs)
    requires Outer(t, ws, cs, false, i + 1, acc) == acc + Occurrences(t, i + 1, ws)
    ensures Inner(t, ws, cs, false, i, j, acc) == acc + (OccurrencesAt(t, i, j + 1 - i, ws) + Occurrences(t, i + 1, ws))
  {
    InnerEnd(t, ws, cs, false, i, j, acc);
    if j < |t| {
      OutsideEnds(t, ws, cs, i, j);
    }
    AppendEmpty(OccurrencesAt(t, i, j + 1 - i, ws), Occurrences(t, i + 1, ws));
  }

  /** A hit of the inner loop is the next occurrence at its start. */
  lemma InnerHitStep(t: string, ws: set<string>, cs: set<char>, i: nat, j: nat, acc: seq<string>)
    requires i < j < |t| && t[j] in cs && t[i..j + 1] in ws
    requires Inner(t, ws, cs, false, i, j + 1, acc + [t[i..j + 1]])
      == acc + [t[i..j + 1]] + (OccurrencesAt(t, i, j + 1 + 1 - i, ws) + Occurrences(t, i + 1, ws))
    ensures Inner(t, ws, cs, false, i, j, acc) == acc + (OccurrencesAt(t, i, j + 1 - i, ws) + Occurrences(t, i + 1, ws))
  {
    var w := t[i..j + 1];
    var k := j + 1 - i;
    var later := OccurrencesAt(t, i, k + 1, ws);
    var rest := Occurrences(t, i + 1, ws);
    InnerHit(t, ws, cs, false, i, j, acc);
    SameSlice(t, i, i + k, j + 1);
    OccurrencesAtHit(t, i, k, ws);
    AppendAssoc([w], later, rest);
    AppendAssoc(acc, [w], later + rest);
  }

  /** Equal bounds give equal slices. */
  lemma SameSlice(t: string, i: nat, e: nat, e': nat)
    requires i <= e == e' <= |t|
    ensures t[i..e] == t[i..e']
  {
  }

  /** A miss of the inner loop is no occurrence at its start. */
  lemma InnerMissStep(t: string, ws: set<string>, cs: set<char>, i: nat, j: nat, acc: seq<string>)
    requires i < j < |t| && t[j] in cs && t[i..j + 1] !in ws
    requires Inner(t, ws, cs, false, i, j + 1, acc)
      == acc + (OccurrencesAt(t, i, j + 1 + 1 - i, ws) + Occurrences(t, i + 1, ws))
    ensures Inner(t, ws, cs, false, i, j, acc) == acc + (OccurrencesAt(t, i, j + 1 - i, ws) + Occurrences(t, i + 1, ws))
  {
    var k := j + 1 - i;
    InnerMiss(t, ws, cs, false, i, j, acc);
    SameSlice(t, i, i + k, j + 1);
    OccurrencesAtMiss(t, i, k, ws);
  }

  /** `contains` of this backend does not depend on `partMatch`: the start
      only moves after a hit, so the first hit is found either way. */
  lemma {:induction false} OuterContainsAgree(t: string, ws: set<string>, cs: set<char>, i: nat)
    ensures Outer(t, ws, cs, true, i, []) == [] <==> Outer(t, ws, cs, false, i, []) == []
    decreases |t| + 1 - i, |t| + 1 - i
  {
    if i < |t| {
      if t[i] !in cs {
        OuterContainsAgree(t, ws, cs, i + 1);
      } else {
        InnerContainsAgree(t, ws, cs, i, i + 1);
      }
    }
  }

  lemma {:induction false} InnerContainsAgree(t: string, ws: set<string>, cs: set<char>, i: nat, j: nat)
    requires i <= j <= |t|
    ensures Inner(t, ws, cs, true, i, j, []) == [] <==> Inner(t, ws, cs, false, i, j, []) == []
    decreases |t| + 1 - i, |t| + 1 - j
  {
    if j >= |t| || t[j] !in cs {
      OuterContainsAgree(t, ws, cs, i + 1);
    } else {
      var w := t[i..j + 1];
      if w in ws {
        InnerHit(t, ws, cs, true, i, j, []);
        InnerHit(t, ws, cs, false, i, j, []);
        InnerPrefix(t, ws, cs, true, j + 1, j + 1, [w]);
        InnerPrefix(t, ws, cs, false, i, j + 1, [w]);
        assert [] + [w] == [w];
      } else {
        InnerMiss(t, ws, cs, true, i, j, []);
        InnerMiss(t, ws, cs, false, i, j, []);
        InnerContainsAgree(t, ws, cs, i, j + 1);
      }
    }
  }

  /** What the `partMatch` jump loses: with the words {"ab", "bc"} and the
      text "abc", the hit "ab" moves the start to 2, so the start 1 is never
      tried and "bc" is never reported; without `partMatch` it is. */
  lemma PartSkipsDat()
    ensures DatReports({"ab", "bc"}, AllChars({"ab", "bc"}), true, "abc") == ["ab"]
    ensures "bc" in DatReports({"ab", "bc"}, AllChars({"ab", "bc"}), false, "abc")
  {
    var t, ws := "abc", {"ab", "bc"};
    var cs := AllChars(ws);
    assert !Unscanned(t) && Trim(t) == t by {
      assert !IsWhitespace(t[0]);
    }
    assert t[0] in cs && t[1] in cs && t[2] in cs by {
      assert "ab"[0] == t[0] && "ab"[1] == t[1] && "bc"[1] == t[2];
    }
    assert t[0..2] in ws by {
      assert t[0..2] == "ab";
    }
    assert t[2..3] !in ws by {
      assert |t[2..3]| == 1;
    }
    InnerHit(t, ws, cs, true, 0, 1, []);
    InnerMiss(t, ws, cs, true, 2, 2, [t[0..2]]);
    assert [] + [t[0..2]] == ["ab"];
    AllCharsCover(ws);
    assert LongWords(ws) by {
      assert |"ab"| == 2 && |"bc"| == 2;
    }
    OuterThorough(t, ws, cs, 0, []);
    assert OccursAt(t, "bc", 1) by {
      assert t[1..3] == "bc";
    }
    OccurrencesSpec(t, 0, ws, "bc");
  }
}

/**
 * `DatCacheNode`: the state of `DatFilter`, two mutable sets that start
 * empty. The getters hand out the live sets, which `DatFilter` adds to in
 * place; in the model it assigns the fields.
 */
module DatNode {
  class DatCacheNode {
    /** The characters of the stored words. */
    var chars: set<char>
    /** The stored words. */
    var words: set<string>

    constructor ()
      ensures chars == {} && words == {}
    {
      chars := {};
      words := {};
    }

    function GetChars(): (r: set<char>)
      reads this
      ensures r == chars
    {
      chars
    }

    function GetWords(): (r: set<string>)
      reads this
      ensures r == words
    {
      words
    }

    /** Replaces the character set; the word set is kept. */
    method SetChars(cs: set<char>)
      modifies this
      ensures chars == cs && words == old(words)
    {
      chars := cs;
    }

    /** Replaces the word set; the character set is kept. */
    method SetWords(ws: set<string>)
      modifies this
      ensures words == ws && chars == old(chars)
    {
      words := ws;
    }
  }
}

/**
 * `DatFilter`: the state is a `DatCacheNode`; `putOneWord` adds the word
 * and its characters, `processor` runs the pruned extension scan.
 */
module Dat {
  import opened JavaStrings
  import opened Words
  import opened Scan
  import opened DatSpec
  import opened DatNode

  class DatFilter {
    /** The state built once by the constructor. */
    const state: DatCacheNode
    /** The stored (trimmed, accepted) words. */
    ghost var Words: set<string>

    ghost predicate Valid()
      reads this, state
    {
      state.words == Words && state.chars == AllChars(Words) && LongWords(Words)
    }

    /** `createState` gives an empty node and `load` puts every word of the
        set, in whatever order the set yields them. */
    constructor (wordSet: WordsCategory)
      ensures Valid() && Words == StoredWords(wordSet.words)
      ensures fresh(state)
    {
      state := new DatCacheNode();
      Words := {};
      new;
      var rest := wordSet.words;
      ghost var done := {};
      while rest != {}
        invariant done + rest == wordSet.words
        invariant Valid() && Words == StoredWords(done)
        invariant fresh(state)
        decreases |rest|
      {
        var w :| w in rest;
        var _ := PutOneWord(w);
        StoredWordsAdd(done, w);
        rest, done := rest - {w}, done + {w};
      }
    }

    /** `putOneWord`: a blank word, or one shorter than two characters once
        trimmed, is refused and nothing changes. Otherwise the trimmed word
        is added to the word set and each of its characters to the
        character set. */
    method PutOneWord(word: string) returns (ok: bool)
      requires Valid()
      modifies this, state
      ensures Valid()
      ensures ok == Accepted(word)
      ensures Words == if ok then old(Words) + {Trim(word)} else old(Words)
      ensures state.words == if ok then old(state.words) + {Trim(word)} else old(state.words)
      ensures state.chars == if ok then old(state.chars) + CharsOf(Trim(word)) else old(state.chars)
    {
      if IsBlank(word) {
        return false;
      }
      var w := Trim(word);
      if |w| < 2 {
        return false;
      }
      state.words := state.words + {w};
      for k := 0 to |w|
        modifies state
        invariant state.words == old(state.words) + {w}
        invariant state.chars == old(state.chars) + (set m | 0 <= m < k :: w[m])
      {
        state.chars := state.chars + {w[k]};
      }
      assert (set m | 0 <= m < |w| :: w[m]) == CharsOf(w);
      AllCharsAdd(Words, w);
      Words := Words + {w};
      ok := true;
    }

    /** `processor`: nothing is scanned when the content is blank or shorter
        than two characters once trimmed. Otherwise every start and every
        extension of it is tried as the sets allow; the scan stops as soon
        as the callback answers true. */
    method Processor(part: bool, content: string, stop: string -> bool) returns (r: bool, calls: seq<string>)
      requires Valid()
      ensures calls == UpTo(DatReports(Words, AllChars(Words), part, content), stop)
      ensures r == AnyStop(DatReports(Words, AllChars(Words), part, content), stop)
    {
      if IsBlank(content) {
        return false, [];
      }
      var t := Trim(content);
      if |t| < 2 {
        return false, [];
      }
      ghost var cs := state.chars;
      ghost var all := Outer(t, Words, cs, part, 0, []);
      calls := [];
      var i := 0;
      while i < |t|
        invariant i <= |t| + 1
        invariant Outer(t, Words, cs, part, i, calls) == all
        invariant !AnyStop(calls, stop)
        decreases |t| + 1 - i
      {
        if t[i] !in state.chars {
          i := i + 1;
          continue;
        }
        var stopped;
        stopped, calls, i := ScanFrom(t, part, stop, i, calls, all);
        if stopped {
          return true, calls;
        }
        i := i + 1;
      }
      UpToSpec(calls, stop);
      r := false;
    }

    /** The inner loop of `processor` from start `i0`, whose character is
        in `chars`: it extends the candidate while its last character is
        in `chars`, reports each stored word it meets and, with `part`,
        moves the start past it. It ends at the first character outside
        `chars`, at the end of the text, or when the callback stops. */
    method ScanFrom(t: string, part: bool, stop: string -> bool, i0: nat, acc: seq<string>, ghost all: seq<string>)
      returns (stopped: bool, calls: seq<string>, i: nat)
      requires Valid() && i0 < |t| && t[i0] in state.chars
      requires Inner(t, Words, state.chars, part, i0, i0 + 1, acc) == all && !AnyStop(acc, stop)
      ensures stopped ==> calls == UpTo(all, stop) && AnyStop(all, stop)
      ensures !stopped ==> i0 <= i <= |t| && Outer(t, Words, state.chars, part, i + 1, calls) == all
      ensures !stopped ==> !AnyStop(calls, stop)
    {
      ghost var cs := state.chars;
      calls := acc;
      i := i0;
      var j := i + 1;
      while j < |t|
        invariant i0 <= i <= j <= |t|
        invariant Inner(t, Words, cs, part, i, j, calls) == all
        invariant !AnyStop(calls, stop)
        decreases |t| + 1 - j
      {
        if t[j] !in state.chars {
          break;
        }
        var word := t[i..j + 1];
        if word in state.words {
          var i' := if part then j + 1 else i;
          InnerPrefix(t, Words, cs, part, i', j + 1, calls + [word]);
          if stop(word) {
            StopsWith(all, calls, word, stop);
            return true, calls + [word], i;
          }
          AnyStopAppend(calls, [word], stop);
          calls := calls + [word];
          i := i';
        }
        j := j + 1;
      }
      return false, calls, i;
    }
  }
}
