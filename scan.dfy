/**
 * What every backend's `processor` has in common: the words a trimming
 * backend stores, the guard on the scanned content, the callback that can
 * stop a scan, and the reference list of every occurrence of a stored word.
 */
module Scan {
  import opened JavaStrings

  /** `putOneWord` of the trie, bucket and char-set backends accepts a word
      when it is not blank and is at least two characters long once trimmed. */
  predicate Accepted(w: string) {
    !IsBlank(w) && |Trim(w)| >= 2
  }

  /** The words such a backend stores for a word set: the trimmed accepted ones. */
  ghost function StoredWords(words: set<string>): (s: set<string>)
    ensures forall x {:trigger x in s} :: x in s ==> |x| >= 2
  {
    set w | w in words && Accepted(w) :: Trim(w)
  }

  /** Every stored word is at least two characters long. */
  ghost predicate LongWords(ws: set<string>) {
    forall w {:trigger w in ws} :: w in ws ==> |w| >= 2
  }

  /** A stored word comes from a given word by trimming, and every accepted
      word is stored. */
  lemma StoredWordsSpec(words: set<string>, x: string)
    ensures x in StoredWords(words) <==> exists w :: w in words && Accepted(w) && Trim(w) == x
  {
  }

  /** Loading one more word stores its trimmed form when it is accepted. */
  lemma StoredWordsAdd(words: set<string>, w: string)
    ensures StoredWords(words + {w}) == if Accepted(w) then StoredWords(words) + {Trim(w)} else StoredWords(words)
  {
  }

  /** The guard at the head of every trimming `processor`: blank content, or
      content shorter than two characters once trimmed, is not scanned. */
  predicate Unscanned(content: string) {
    IsBlank(content) || |Trim(content)| < 2
  }

  // ---------------------------------------------------------------------
  // The callback. `Callback.call` returning true stops the scan at once.
  // A scan is described by the list of words it would report to a callback
  // that never stops; the callback `stop` sees the prefix of that list up to
  // and including the first word it answers true for.

  /** The reports a callback receives: everything up to the first stop. */
  function UpTo(s: seq<string>, stop: string -> bool): seq<string> {
    if s == [] then []
    else if stop(s[0]) then [s[0]]
    else [s[0]] + UpTo(s[1..], stop)
  }

  /** The callback sees a prefix of the reports, answers false to all of it
      but the last, and answers true to the last exactly when some report
      makes it stop; when none does, it sees them all. */
  lemma {:induction false} UpToSpec(s: seq<string>, stop: string -> bool)
    ensures var r := UpTo(s, stop);
      && |r| <= |s| && r == s[..|r|]
      && (forall k :: 0 <= k < |r| - 1 ==> !stop(r[k]))
      && (r != [] && stop(r[|r| - 1]) <==> AnyStop(s, stop))
      && (!AnyStop(s, stop) ==> r == s)
  {
    if s != [] {
      AnyStopCons(s, stop);
      if !stop(s[0]) {
        UpToSpec(s[1..], stop);
        var r := UpTo(s, stop);
        var rest := UpTo(s[1..], stop);
        assert r == [s[0]] + rest;
        forall k | 0 <= k < |r| - 1 ensures !stop(r[k]) {
          if k > 0 {
            assert r[k] == rest[k - 1];
          }
        }
      }
    }
  }

  /** Some report makes the callback stop the scan. */
  predicate AnyStop(s: seq<string>, stop: string -> bool) {
    exists k :: 0 <= k < |s| && stop(s[k])
  }

  /** Splitting the report list: the callback stops in the first part, or it
      sees all of the first part and goes on with the second. */
  lemma {:induction false} UpToAppend(a: seq<string>, b: seq<string>, stop: string -> bool)
    ensures AnyStop(a, stop) ==> UpTo(a + b, stop) == UpTo(a, stop)
    ensures !AnyStop(a, stop) ==> UpTo(a + b, stop) == a + UpTo(b, stop)
    ensures AnyStop(a + b, stop) <==> AnyStop(a, stop) || AnyStop(b, stop)
    decreases |a|
  {
    AnyStopAppend(a, b, stop);
    if a == [] {
      assert a + b == b;
    } else {
      assert (a + b)[1..] == a[1..] + b;
      assert (a + b)[0] == a[0];
      UpToAppend(a[1..], b, stop);
      AnyStopCons(a, stop);
    }
  }

  lemma AnyStopCons(s: seq<string>, stop: string -> bool)
    requires s != []
    ensures AnyStop(s, stop) <==> stop(s[0]) || AnyStop(s[1..], stop)
  {
    if AnyStop(s, stop) && !stop(s[0]) {
      var k :| 0 <= k < |s| && stop(s[k]);
      assert s[1..][k - 1] == s[k];
    }
    if AnyStop(s[1..], stop) {
      var k :| 0 <= k < |s[1..]| && stop(s[1..][k]);
      assert s[k + 1] == s[1..][k];
    }
  }

  lemma AnyStopAppend(a: seq<string>, b: seq<string>, stop: string -> bool)
    ensures AnyStop(a + b, stop) <==> AnyStop(a, stop) || AnyStop(b, stop)
  {
    if AnyStop(a + b, stop) && !AnyStop(a, stop) {
      var k :| 0 <= k < |a + b| && stop((a + b)[k]);
      assert (a + b)[k] == b[k - |a|];
    }
    if AnyStop(a, stop) {
      var k :| 0 <= k < |a| && stop(a[k]);
      assert (a + b)[k] == a[k];
    }
    if AnyStop(b, stop) {
      var k :| 0 <= k < |b| && stop(b[k]);
      assert (a + b)[|a| + k] == b[k];
    }
  }

  /** The callback stops inside `walk`, after seeing all of `before`: it sees
      `before` and what it sees of `walk`, and nothing of `rest`. */
  lemma StopInside(before: seq<string>, walk: seq<string>, rest: seq<string>, stop: string -> bool)
    requires !AnyStop(before, stop) && AnyStop(walk, stop)
    ensures UpTo(before + walk + rest, stop) == before + UpTo(walk, stop)
    ensures AnyStop(before + walk + rest, stop)
  {
    assert before + walk + rest == before + (walk + rest);
    UpToAppend(before, walk + rest, stop);
    UpToAppend(walk, rest, stop);
  }

  /** `pre` is a prefix of `s`. */
  predicate Prefix(pre: seq<string>, s: seq<string>) {
    |pre| <= |s| && s[..|pre|] == pre
  }

  lemma PrefixTrans(a: seq<string>, b: seq<string>, c: seq<string>)
    requires Prefix(a, b) && Prefix(b, c)
    ensures Prefix(a, c)
  {
    assert c[..|a|] == c[..|b|][..|a|];
  }

  /** The callback answers true to the last of `pre` and to nothing before. */
  predicate StoppedAt(pre: seq<string>, stop: string -> bool) {
    pre != [] && stop(pre[|pre| - 1]) && !AnyStop(pre[..|pre| - 1], stop)
  }

  /** The callback that stops at the end of a prefix sees that prefix. */
  lemma UpToStopped(s: seq<string>, pre: seq<string>, stop: string -> bool)
    requires Prefix(pre, s) && StoppedAt(pre, stop)
    ensures UpTo(s, stop) == pre && AnyStop(s, stop)
  {
    var before := pre[..|pre| - 1];
    var rest := s[|pre|..];
    assert s == before + [pre[|pre| - 1]] + rest;
    StopAt(before, pre[|pre| - 1], rest, stop);
  }

  /** The callback stops at `word`: it has seen exactly the reports up to it. */
  lemma StopAt(before: seq<string>, word: string, tail: seq<string>, stop: string -> bool)
    requires !AnyStop(before, stop) && stop(word)
    ensures UpTo(before + [word] + tail, stop) == before + [word]
    ensures AnyStop(before + [word] + tail, stop)
  {
    assert before + [word] + tail == before + ([word] + tail);
    UpToAppend(before, [word] + tail, stop);
    assert ([word] + tail)[0] == word;
    assert AnyStop([word] + tail, stop);
  }

  /** A callback that always answers true (as `contains` passes) sees only the
      first report. */
  lemma UpToStopAtOnce(s: seq<string>)
    ensures UpTo(s, _ => true) == if s == [] then [] else [s[0]]
    ensures AnyStop(s, _ => true) <==> s != []
  {
    if s != [] {
      assert (_ => true)(s[0]);
    }
  }

  /** A callback that always answers false (as `getWords` passes) sees every
      report. */
  lemma UpToNeverStop(s: seq<string>)
    ensures UpTo(s, _ => false) == s
    ensures !AnyStop(s, _ => false)
  {
    UpToSpec(s, _ => false);
  }

  // ---------------------------------------------------------------------
  // The reference list: every occurrence of a word of `ws` in `t`, by
  // start position and then by length.

  /** Words of `ws` that start at `i` and are at least `k` characters long,
      shortest first. */
  function OccurrencesAt(t: string, i: nat, k: nat, ws: set<string>): seq<string>
    requires i <= |t|
    decreases |t| - i - k
  {
    if i + k > |t| then []
    else (if t[i..i + k] in ws then [t[i..i + k]] else []) + OccurrencesAt(t, i, k + 1, ws)
  }

  /** Every occurrence of a word of `ws` in `t` starting at `i` or later. */
  function Occurrences(t: string, i: nat, ws: set<string>): seq<string>
    requires i <= |t|
    decreases |t| - i
  {
    if i == |t| then []
    else OccurrencesAt(t, i, 1, ws) + Occurrences(t, i + 1, ws)
  }

  /** Concatenation regrouped. */
  lemma AppendAssoc<T>(a: seq<T>, b: seq<T>, c: seq<T>)
    ensures a + b + c == a + (b + c)
  {
  }

  /** Concatenation with nothing. */
  lemma AppendEmpty<T>(a: seq<T>, b: seq<T>)
    requires a == []
    ensures a + b == b && b + a == b
  {
  }

  /** One step of the reference list: a word at `t[i..i+k]` comes first. */
  lemma OccurrencesAtHit(t: string, i: nat, k: nat, ws: set<string>)
    requires i + k <= |t| && t[i..i + k] in ws
    ensures OccurrencesAt(t, i, k, ws) == [t[i..i + k]] + OccurrencesAt(t, i, k + 1, ws)
  {
  }

  /** One step of the reference list: a non-word at `t[i..i+k]` adds nothing. */
  lemma OccurrencesAtMiss(t: string, i: nat, k: nat, ws: set<string>)
    requires i + k <= |t| && t[i..i + k] !in ws
    ensures OccurrencesAt(t, i, k, ws) == OccurrencesAt(t, i, k + 1, ws)
  {
    assert [] + OccurrencesAt(t, i, k + 1, ws) == OccurrencesAt(t, i, k + 1, ws);
  }

  lemma {:induction false} OccurrencesAtSpec(t: string, i: nat, k: nat, ws: set<string>, x: string)
    requires i <= |t|
    ensures x in OccurrencesAt(t, i, k, ws) <==> x in ws && |x| >= k && OccursAt(t, x, i)
    decreases |t| - i - k
  {
    if i + k <= |t| {
      OccurrencesAtSpec(t, i, k + 1, ws, x);
    }
  }

  /** The reference list holds exactly the words of `ws` that occur in `t`
      (the empty word aside). */
  lemma {:induction false} OccurrencesSpec(t: string, i: nat, ws: set<string>, x: string)
    requires i <= |t|
    ensures x in Occurrences(t, i, ws) <==> x in ws && x != [] && exists j :: i <= j <= |t| && OccursAt(t, x, j)
    decreases |t| - i
  {
    if i < |t| {
      OccurrencesAtSpec(t, i, 1, ws, x);
      OccurrencesSpec(t, i + 1, ws, x);
      if x in ws && x != [] && (exists j :: i <= j <= |t| && OccursAt(t, x, j)) {
        var j :| i <= j <= |t| && OccursAt(t, x, j);
        if j > i {
          assert exists j :: i + 1 <= j <= |t| && OccursAt(t, x, j);
        }
      }
    }
  }

  /** Words of `ws` starting at `i` are at least two characters long. */
  lemma OccurrencesAtLong(t: string, i: nat, ws: set<string>)
    requires i < |t| && LongWords(ws)
    ensures OccurrencesAt(t, i, 1, ws) == OccurrencesAt(t, i, 2, ws)
  {
  }

  /** No word of length `m` or more starts at `i` when no such word begins
      with `t[i..i+k]`. */
  lemma {:induction false} OccurrencesAtNone(t: string, i: nat, k: nat, m: nat, ws: set<string>)
    requires i + k <= |t| && k <= m
    requires forall w {:trigger w[..k]} :: w in ws && |w| >= m ==> w[..k] != t[i..i + k]
    ensures OccurrencesAt(t, i, m, ws) == []
    decreases |t| - i - m
  {
    if i + m <= |t| {
      assert t[i..i + m][..k] == t[i..i + k];
      OccurrencesAtNone(t, i, k, m + 1, ws);
    }
  }
}
