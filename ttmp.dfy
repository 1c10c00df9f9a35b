/**
 * `TtmpCacheNode`: the mutable tables of the TTMP backend. Every character
 * table is a map whose missing keys read as zero/false, as the untouched
 * slots of a character-indexed array do.
 */
module TtmpNode {
  import opened TtmpSpec

  class TtmpCacheNode {
    var fastCheck: map<char, bv8>
    var fastLength: map<char, bv8>
    var charCheck: map<char, bool>
    var endCheck: map<char, bool>
    var hash: set<string>
    var minWordLength: int
    var maxWordLength: int

    /** A fresh node holds no word. */
    constructor ()
      ensures Tables() == EmptyTables()
    {
      fastCheck, fastLength := map[], map[];
      charCheck, endCheck := map[], map[];
      hash := {};
      minWordLength, maxWordLength := MaxInt, 0;
    }

    /** The current tables as one value. */
    function Tables(): Tables
      reads this
    {
      TtmpSpec.Tables(fastCheck, fastLength, charCheck, endCheck, hash, minWordLength, maxWordLength)
    }
  }
}

/**
 * `TtmpFilter`: `putOneWord` sets the signature bits of a word and
 * `processor` scans the trimmed content start by start, pruning with the
 * bits before each lookup in `hash`.
 */
module Ttmp {
  import opened Wrappers
  import opened JavaStrings
  import opened Words
  import opened Scan
  import opened TtmpSpec
  import opened TtmpNode

  class TtmpFilter {
    /** The state built once by `createState`. */
    const state: TtmpCacheNode
    /** The words put so far, exactly as given. */
    ghost var Words: set<string>

    ghost predicate Valid()
      reads this, state
    {
      Holds(state.Tables(), Words)
    }

    /** `createState`: a filter with a fresh, empty node. */
    constructor ()
      ensures Valid() && Words == {}
      ensures fresh(state)
    {
      state := new TtmpCacheNode();
      Words := {};
    }

    /** `putOneWord`: the length bounds move first; an empty word then
        fails at the lookup of its last character, leaving the shortest
        length at zero. Any other word gets its offset bits, goes to
        `charCheck` when it is one character long and to `endCheck`,
        `fastLength` and `hash` otherwise; the answer is always false. */
    method PutOneWord(word: string) returns (r: Result<bool, Error>)
      requires Valid()
      modifies this, state
      ensures r.Failure? <==> word == []
      ensures r.Failure? ==> state.Tables() == old(state.Tables()).(minLen := 0)
      ensures r.Success? ==> !r.value && state.Tables() == AddWord(old(state.Tables()), word)
      ensures r.Success? ==> Valid() && Words == old(Words) + {word}
    {
      ghost var T0 := state.Tables();
      var ok := PutSignature(state, word);
      if !ok {
        return Failure(IndexOutOfBounds("String index out of range: -1"));
      }
      AddWordHolds(T0, Words, word);
      Words := Words + {word};
      return Success(false);
    }

    /** `processor`: nothing is reported for blank content; otherwise the
        trimmed content is scanned round by round, and the scan stops as
        soon as the callback answers true. */
    method Processor(part: bool, content: string, stop: string -> bool) returns (r: bool, calls: seq<string>)
      requires Valid()
      ensures calls == UpTo(TtmpReports(state.Tables(), part, content), stop)
      ensures r == AnyStop(TtmpReports(state.Tables(), part, content), stop)
    {
      if IsBlank(content) {
        return false, [];
      }
      var t := Trim(content);
      var T := state.Tables();
      ghost var all := ScanAcc(t, T, part, 0, []);
      calls := [];
      var index := 0;
      while index < |t|
        invariant ScanAcc(t, T, part, index, calls) == all
        invariant !AnyStop(calls, stop)
        decreases |t| - index
      {
        var stopped, calls', next := ScanRound(t, T, part, index, stop, calls, all);
        if stopped {
          return true, calls';
        }
        calls, index := calls', next;
      }
      UpToSpec(calls, stop);
      r := false;
    }
  }

  /** The constructor of the filter: `createState`, then `putOneWord` for
      every word of the set in whatever order the set yields them. It fails
      exactly when the set holds the empty word. */
  method NewTtmpFilter(wordSet: WordsCategory) returns (r: Result<TtmpFilter, Error>)
    ensures r.Failure? <==> [] in wordSet.words
    ensures r.Success? ==> fresh(r.value) && fresh(r.value.state) && r.value.Valid() && r.value.Words == wordSet.words
  {
    var f := new TtmpFilter();
    var rest := wordSet.words;
    ghost var done := {};
    while rest != {}
      invariant done + rest == wordSet.words && [] !in done
      invariant f.Valid() && f.Words == done
      invariant fresh(f) && fresh(f.state)
      decreases |rest|
    {
      var w :| w in rest;
      var put := f.PutOneWord(w);
      if put.Failure? {
        return Failure(put.error);
      }
      rest, done := rest - {w}, done + {w};
    }
    return Success(f);
  }

  /** One round of the scan at `index`: the `partMatch` search for a start,
      the one-character report, then the window loop; the next round begins
      one past the start (`partMatch`) or `count` past it. */
  method ScanRound(t: string, T: Tables, part: bool, index: nat, stop: string -> bool, calls: seq<string>, ghost all: seq<string>)
    returns (stopped: bool, calls': seq<string>, next: nat)
    requires index < |t| && ScanAcc(t, T, part, index, calls) == all && !AnyStop(calls, stop)
    ensures stopped ==> calls' == UpTo(all, stop) && AnyStop(all, stop)
    ensures !stopped ==> next == Next(t, T, part, index) && ScanAcc(t, T, part, next, calls') == all && !AnyStop(calls', stop)
  {
    var s := index;
    if part && (index > 0 || !First(T, t[index])) {
      s := SkipFrom(t, T, index);
    }
    ScanAccRound(t, T, part, index, calls);
    var acc := calls;
    if T.minLen == 1 && Flag(T.charCheck, t[s]) {
      var w := [t[s]];
      acc := calls + [w];
      assert Prefix(acc, all) by {
        WindowAccPrefix(t, T, s, 1, acc);
        ScanAccPrefix(t, T, part, Next(t, T, part, index), WindowAcc(t, T, s, 1, acc));
        PrefixTrans(acc, WindowAcc(t, T, s, 1, acc), all);
      }
      if stop(w) {
        assert acc[..|calls|] == calls;
        UpToStopped(all, acc, stop);
        return true, acc, 0;
      }
      AnyStopAppend(calls, [w], stop);
    }
    ScanAccPrefix(t, T, part, Next(t, T, part, index), WindowAcc(t, T, s, 1, acc));
    var count;
    stopped, calls', count := Window(t, T, s, stop, acc, all);
    next := if part then s + 1 else s + count;
  }

  /** The `partMatch` search loop: from `index`, move on while the next
      character begins no word, up to the last position. */
  method SkipFrom(t: string, T: Tables, index: nat) returns (s: nat)
    requires index < |t|
    ensures s == SkipTo(t, T, index)
  {
    s := index;
    var found := false;
    while !found && s < |t| - 1
      invariant s < |t|
      invariant found ==> s == SkipTo(t, T, index)
      invariant !found ==> SkipTo(t, T, s) == SkipTo(t, T, index)
      decreases |t| - s, !found
    {
      s := s + 1;
      if First(T, t[s]) {
        found := true;
      }
    }
  }

  /** The window loop at start `s`: each offset first counts a character
      that begins no word, stops at a character that fits no word there,
      and looks the candidate up when the length and end tests pass. */
  method Window(t: string, T: Tables, s: nat, stop: string -> bool, acc: seq<string>, ghost all: seq<string>)
    returns (stopped: bool, calls: seq<string>, count: nat)
    requires s < |t| && Prefix(WindowAcc(t, T, s, 1, acc), all) && !AnyStop(acc, stop)
    ensures stopped ==> calls == UpTo(all, stop) && AnyStop(all, stop)
    ensures !stopped ==> calls == WindowAcc(t, T, s, 1, acc) && count == WindowCount(t, T, s, 1, 1) && !AnyStop(calls, stop)
  {
    count := 1;
    calls := acc;
    var bound := if T.maxLen < |t| - s - 1 then T.maxLen else |t| - s - 1;
    var j := 1;
    while j <= bound
      invariant 1 <= j
      invariant WindowAcc(t, T, s, j, calls) == WindowAcc(t, T, s, 1, acc)
      invariant WindowCount(t, T, s, j, count) == WindowCount(t, T, s, 1, 1)
      invariant !AnyStop(calls, stop)
      decreases bound - j
    {
      var current := t[s + j];
      if !First(T, current) {
        count := count + 1;
      }
      if !Bit(Get(T.fastCheck, current), Cap(j)) {
        break;
      }
      if j + 1 >= T.minLen && Bit(Get(T.fastLength, t[s]), Cap(j - 1)) && Flag(T.endCheck, current) {
        var sub := t[s..s + j + 1];
        if sub in T.hash {
          WindowAccPrefix(t, T, s, j + 1, calls + [sub]);
          PrefixTrans(calls + [sub], WindowAcc(t, T, s, 1, acc), all);
          if stop(sub) {
            assert (calls + [sub])[..|calls|] == calls;
            UpToStopped(all, calls + [sub], stop);
            return true, calls + [sub], count;
          }
          AnyStopAppend(calls, [sub], stop);
          calls := calls + [sub];
        }
      }
      j := j + 1;
    }
    stopped := false;
  }

  /** The `fastCheck` loops of `putOneWord`: the bit of each of the first
      seven positions, then bit 7 for every later position. */
  method MarkFastCheck(fc: map<char, bv8>, word: string) returns (fastCheck: map<char, bv8>)
    ensures fastCheck == Mark(fc, word, |word|)
  {
    fastCheck := fc;
    var i := 0;
    while i < 7 && i < |word|
      invariant i <= |word|
      invariant fastCheck == Mark(fc, word, i)
    {
      fastCheck := SetBit(fastCheck, word[i], i);
      i := i + 1;
    }
    i := 7;
    while i < |word|
      invariant 7 <= i
      invariant fastCheck == Mark(fc, word, if i <= |word| then i else |word|)
    {
      fastCheck := SetBit(fastCheck, word[i], 7);
      i := i + 1;
    }
  }

  /** The table updates of `putOneWord` on `state`: false, with only the
      shortest length moved (to zero), for the empty word, whose last
      character does not exist. */
  method PutSignature(state: TtmpCacheNode, word: string) returns (ok: bool)
    modifies state
    ensures ok <==> word != []
    ensures !ok ==> state.Tables() == old(state.Tables()).(
      minLen := if old(state.minWordLength) < 0 then old(state.minWordLength) else 0,
      maxLen := if old(state.maxWordLength) < 0 then 0 else old(state.maxWordLength))
    ensures ok ==> state.Tables() == AddWord(old(state.Tables()), word)
  {
    state.maxWordLength := if state.maxWordLength < |word| then |word| else state.maxWordLength;
    state.minWordLength := if state.minWordLength < |word| then state.minWordLength else |word|;
    var fastCheck := MarkFastCheck(state.fastCheck, word);
    state.fastCheck := fastCheck;
    if |word| == 1 {
      state.charCheck := state.charCheck[word[0] := true];
    } else {
      if |word| == 0 {
        return false;
      }
      state.endCheck := state.endCheck[word[|word| - 1] := true];
      state.fastLength := SetBit(state.fastLength, word[0], Cap(|word| - 2));
      state.hash := state.hash + {word};
    }
    return true;
  }
}
