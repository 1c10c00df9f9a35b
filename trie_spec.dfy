/**
 * The scan shared by `DfaFilter` and `TireTreeFilter`, stated over the set of
 * stored words instead of over trie nodes: a node exists for every non-empty
 * prefix of a stored word, is marked as a word exactly for the stored words,
 * and is a leaf exactly when no stored word extends it.
 */
module TrieSpec {
  import opened JavaStrings
  import opened Scan

  /** `p` is a prefix of a stored word: the trie has a node for it. */
  ghost predicate Begins(p: string, ws: set<string>) {
    exists w {:trigger w in ws} :: w in ws && |p| <= |w| && w[..|p|] == p
  }

  /** `p` is a proper prefix of a stored word: its node is not a leaf. */
  ghost predicate Extends(p: string, ws: set<string>) {
    exists w {:trigger w in ws} :: w in ws && |p| < |w| && w[..|p|] == p
  }

  /** The walk from start `index` once `t[index..index+k]` has been matched
      (`charCount == k`): the words reported from this start and the final
      `charCount`. With `part` the walk ends at the first word. */
  ghost function Walk(t: string, ws: set<string>, part: bool, index: nat, k: nat): (r: (seq<string>, nat))
    requires index + k <= |t|
    ensures k <= r.1 <= |t| - index
    decreases |t| - index - k
  {
    var i := index + k;
    if i >= |t| then ([], k)
    else
      var p := t[index..i + 1];
      if !Begins(p, ws) then ([], k)
      else if part && p in ws then ([p], k + 1)
      else if !Extends(p, ws) then (if p in ws then [p] else [], k + 1)
      else
        var rest := Walk(t, ws, part, index, k + 1);
        if p in ws then ([p] + rest.0, rest.1) else rest
  }

  /** `Walk` with the words reported so far carried along in `acc`: the form
      in which the loop of `processor` computes it. */
  ghost function WalkAcc(t: string, ws: set<string>, part: bool, index: nat, k: nat, acc: seq<string>): (r: (seq<string>, nat))
    requires index + k <= |t|
    decreases |t| - index - k
  {
    var i := index + k;
    if i >= |t| then (acc, k)
    else
      var p := t[index..i + 1];
      if !Begins(p, ws) then (acc, k)
      else if part && p in ws then (acc + [p], k + 1)
      else
        var acc' := if p in ws then acc + [p] else acc;
        if !Extends(p, ws) then (acc', k + 1)
        else WalkAcc(t, ws, part, index, k + 1, acc')
  }

  /** The accumulated walk is the walk appended to what was carried. */
  lemma {:induction false} WalkAccSpec(t: string, ws: set<string>, part: bool, index: nat, k: nat, acc: seq<string>)
    requires index + k <= |t|
    ensures WalkAcc(t, ws, part, index, k, acc) == (acc + Walk(t, ws, part, index, k).0, Walk(t, ws, part, index, k).1)
    decreases |t| - index - k
  {
    var i := index + k;
    if i < |t| {
      var p := t[index..i + 1];
      if Begins(p, ws) && !(part && p in ws) && Extends(p, ws) {
        var acc' := if p in ws then acc + [p] else acc;
        WalkAccSpec(t, ws, part, index, k + 1, acc');
        var rest := Walk(t, ws, part, index, k + 1).0;
        if p in ws {
          assert acc' + rest == acc + ([p] + rest);
        }
      } else {
        assert acc + [] == acc;
      }
    } else {
      assert acc + [] == acc;
    }
  }

  /** Carrying nothing, the accumulated walk is the walk. */
  lemma WalkAccEmpty(t: string, ws: set<string>, part: bool, index: nat, k: nat)
    requires index + k <= |t|
    ensures WalkAcc(t, ws, part, index, k, []) == Walk(t, ws, part, index, k)
  {
    WalkAccSpec(t, ws, part, index, k, []);
    assert [] + Walk(t, ws, part, index, k).0 == Walk(t, ws, part, index, k).0;
  }

  /** The words the scan reports from start `index` on, to a callback that
      never stops. A start whose first character begins no stored word, or
      only a one-character one, is passed over; otherwise, with `part`, the
      next start is `index + charCount + 1`. */
  ghost function Reports(t: string, ws: set<string>, part: bool, index: nat): seq<string>
    requires index <= |t|
    decreases |t| - index
  {
    if index == |t| then []
    else
      var p := t[index..index + 1];
      if !Begins(p, ws) || !Extends(p, ws) then Reports(t, ws, part, index + 1)
      else
        var w := Walk(t, ws, part, index, 1);
        w.0 + Reports(t, ws, part, NextStart(t, ws, part, index))
  }

  /** `Reports` with the words reported so far carried along in `acc`: the
      form in which the outer loop of `processor` computes it. */
  ghost function ReportsAcc(t: string, ws: set<string>, part: bool, index: nat, acc: seq<string>): seq<string>
    requires index <= |t|
    decreases |t| - index
  {
    if index == |t| then acc
    else
      var p := t[index..index + 1];
      if !Begins(p, ws) || !Extends(p, ws) then ReportsAcc(t, ws, part, index + 1, acc)
      else
        var w := Walk(t, ws, part, index, 1);
        ReportsAcc(t, ws, part, NextStart(t, ws, part, index), acc + w.0)
  }

  /** The accumulated reports are the reports appended to what was carried. */
  lemma {:induction false} ReportsAccSpec(t: string, ws: set<string>, part: bool, index: nat, acc: seq<string>)
    requires index <= |t|
    ensures ReportsAcc(t, ws, part, index, acc) == acc + Reports(t, ws, part, index)
    decreases |t| - index
  {
    if index == |t| {
      assert acc + [] == acc;
    } else {
      var p := t[index..index + 1];
      if !Begins(p, ws) || !Extends(p, ws) {
        ReportsAccSpec(t, ws, part, index + 1, acc);
      } else {
        var w := Walk(t, ws, part, index, 1);
        var next := NextStart(t, ws, part, index);
        ReportsAccSpec(t, ws, part, next, acc + w.0);
        AppendAssoc(acc, w.0, Reports(t, ws, part, next));
      }
    }
  }

  /** A start that is passed over adds nothing to the accumulated scan. */
  lemma ReportsAccSkip(t: string, ws: set<string>, part: bool, index: nat, acc: seq<string>)
    requires index < |t| && !(Begins(t[index..index + 1], ws) && Extends(t[index..index + 1], ws))
    ensures ReportsAcc(t, ws, part, index, acc) == ReportsAcc(t, ws, part, index + 1, acc)
  {
  }

  /** A walked start adds its walk to the accumulated scan. */
  lemma ReportsAccWalk(t: string, ws: set<string>, part: bool, index: nat, acc: seq<string>)
    requires index < |t| && Begins(t[index..index + 1], ws) && Extends(t[index..index + 1], ws)
    ensures ReportsAcc(t, ws, part, index, acc)
      == ReportsAcc(t, ws, part, NextStart(t, ws, part, index), acc + Walk(t, ws, part, index, 1).0)
    ensures ReportsAcc(t, ws, part, index, acc)
      == acc + Walk(t, ws, part, index, 1).0 + Reports(t, ws, part, NextStart(t, ws, part, index))
  {
    ReportsAccSpec(t, ws, part, NextStart(t, ws, part, index), acc + Walk(t, ws, part, index, 1).0);
  }

  /** The start after a walked one: the next position, or with `part` one
      past the characters the walk matched. */
  ghost function NextStart(t: string, ws: set<string>, part: bool, index: nat): (n: nat)
    requires index < |t|
    ensures index < n <= |t|
  {
    if part then Min(index + Walk(t, ws, part, index, 1).1 + 1, |t|) else index + 1
  }

  /** Carrying nothing, the accumulated reports are the reports. */
  lemma ReportsAccEmpty(t: string, ws: set<string>, part: bool, index: nat)
    requires index <= |t|
    ensures ReportsAcc(t, ws, part, index, []) == Reports(t, ws, part, index)
  {
    ReportsAccSpec(t, ws, part, index, []);
    assert [] + Reports(t, ws, part, index) == Reports(t, ws, part, index);
  }

  function Min(a: nat, b: nat): nat {
    if a <= b then a else b
  }

  /** The reports of a whole `processor` call. */
  ghost function ScanReports(ws: set<string>, part: bool, content: string): seq<string> {
    if Unscanned(content) then [] else Reports(Trim(content), ws, part, 0)
  }

  /** The first element of a list, as a list. */
  function First(s: seq<string>): (r: seq<string>)
    ensures |r| <= 1 && r <= s
  {
    if s == [] then [] else [s[0]]
  }

  /** A text slice that begins no stored word of at least its own length. */
  lemma NoneBegins(p: string, ws: set<string>)
    requires !Begins(p, ws)
    ensures forall w :: w in ws && |w| >= |p| ==> w[..|p|] != p
  {
  }

  /** A text slice that only ends stored words is a prefix of no longer one. */
  lemma NoneExtends(p: string, ws: set<string>)
    requires !Extends(p, ws)
    ensures forall w :: w in ws && |w| >= |p| + 1 ==> w[..|p|] != p
  {
  }

  /** Without `part`, the walk reports every stored word that starts at
      `index` and is longer than `k`, shortest first. */
  lemma {:induction false} WalkThorough(t: string, ws: set<string>, index: nat, k: nat)
    requires index + k <= |t|
    ensures Walk(t, ws, false, index, k).0 == OccurrencesAt(t, index, k + 1, ws)
    decreases |t| - index - k
  {
    var i := index + k;
    if i < |t| {
      var p := t[index..i + 1];
      var here := if p in ws then [p] else [];
      assert OccurrencesAt(t, index, k + 1, ws) == here + OccurrencesAt(t, index, k + 2, ws);
      if !Begins(p, ws) {
        NothingBegun(t, ws, index, k);
      } else if !Extends(p, ws) {
        NothingLonger(t, ws, index, k);
      } else {
        WalkThorough(t, ws, index, k + 1);
      }
    }
  }

  /** With `part`, the walk reports only the shortest stored word longer than
      `k` that starts at `index`, if there is one. */
  lemma {:induction false} WalkShortest(t: string, ws: set<string>, index: nat, k: nat)
    requires index + k <= |t|
    ensures Walk(t, ws, true, index, k).0 == First(OccurrencesAt(t, index, k + 1, ws))
    decreases |t| - index - k
  {
    var i := index + k;
    if i < |t| {
      var p := t[index..i + 1];
      var later := OccurrencesAt(t, index, k + 2, ws);
      if !Begins(p, ws) {
        NothingBegun(t, ws, index, k);
      } else if p in ws {
        assert OccurrencesAt(t, index, k + 1, ws) == [p] + later;
      } else {
        assert OccurrencesAt(t, index, k + 1, ws) == [] + later;
        if !Extends(p, ws) {
          NothingLonger(t, ws, index, k);
        } else {
          WalkShortest(t, ws, index, k + 1);
        }
      }
    }
  }

  /** No stored word begins with `t[index..index+k+1]`: no stored word
      of that length or longer starts at `index`. */
  lemma NothingBegun(t: string, ws: set<string>, index: nat, k: nat)
    requires index + k < |t| && !Begins(t[index..index + k + 1], ws)
    ensures OccurrencesAt(t, index, k + 1, ws) == []
  {
    NoneBegins(t[index..index + k + 1], ws);
    OccurrencesAtNone(t, index, k + 1, k + 1, ws);
  }

  /** No stored word extends `t[index..index+k+1]`: no longer stored word
      starts at `index`. */
  lemma NothingLonger(t: string, ws: set<string>, index: nat, k: nat)
    requires index + k < |t| && !Extends(t[index..index + k + 1], ws)
    ensures OccurrencesAt(t, index, k + 2, ws) == []
  {
    NoneExtends(t[index..index + k + 1], ws);
    OccurrencesAtNone(t, index, k + 1, k + 2, ws);
  }

  /** Without `part`, the scan reports every occurrence of every stored word,
      nested and overlapping ones included. */
  lemma {:induction false} ReportsThorough(t: string, ws: set<string>, index: nat)
    requires index <= |t| && LongWords(ws)
    ensures Reports(t, ws, false, index) == Occurrences(t, index, ws)
    decreases |t| - index
  {
    if index < |t| {
      var p := t[index..index + 1];
      OccurrencesAtLong(t, index, ws);
      if !Extends(p, ws) {
        NoneExtends(p, ws);
        OccurrencesAtNone(t, index, 1, 2, ws);
      } else {
        WalkThorough(t, ws, index, 1);
      }
      ReportsThorough(t, ws, index + 1);
    }
  }

  /** Every reported word is a stored word that occurs in the text at or
      after the start. */
  lemma {:induction false} ReportsSound(t: string, ws: set<string>, part: bool, index: nat, x: string)
    requires index <= |t|
    requires x in Reports(t, ws, part, index)
    ensures x in ws && exists j :: index <= j <= |t| && OccursAt(t, x, j)
    decreases |t| - index
  {
    var p := t[index..index + 1];
    if !Begins(p, ws) || !Extends(p, ws) {
      ReportsSound(t, ws, part, index + 1, x);
    } else {
      var w := Walk(t, ws, part, index, 1);
      if x in w.0 {
        WalkSound(t, ws, part, index, 1, x);
      } else {
        ReportsSound(t, ws, part, NextStart(t, ws, part, index), x);
      }
    }
  }

  lemma {:induction false} WalkSound(t: string, ws: set<string>, part: bool, index: nat, k: nat, x: string)
    requires index + k <= |t|
    requires x in Walk(t, ws, part, index, k).0
    ensures x in ws && |x| > k && OccursAt(t, x, index)
    decreases |t| - index - k
  {
    var i := index + k;
    var p := t[index..i + 1];
    if Begins(p, ws) && !(part && p in ws) && Extends(p, ws) {
      var here := if p in ws then [p] else [];
      var rest := Walk(t, ws, part, index, k + 1);
      assert x in here + rest.0;
      if x !in here {
        WalkSound(t, ws, part, index, k + 1, x);
      }
    }
  }

  /** The reports of a call are stored words occurring in the trimmed content;
      unscanned content reports nothing. */
  lemma ScanReportsSound(ws: set<string>, part: bool, content: string, x: string)
    requires x in ScanReports(ws, part, content)
    ensures !Unscanned(content)
    ensures x in ws && Occurs(x, Trim(content))
  {
    ReportsSound(Trim(content), ws, part, 0, x);
  }

  // ---------------------------------------------------------------------
  // With `part` the scan can move past a stored word.

  /** Words {"abc", "bd"} and text "abd": with `part` the walk from 0
      matches "ab", reports nothing, and the next start is 3, so the "bd"
      at 1 is never walked. */
  lemma PartSkipsWord()
    ensures Reports("abd", {"abc", "bd"}, true, 0) == []
  {
    var t, ws := "abd", {"abc", "bd"};
    assert Begins(t[0..1], ws) && Extends(t[0..1], ws) by {
      assert "abc"[..1] == t[0..1];
    }
    assert Begins(t[0..2], ws) && Extends(t[0..2], ws) by {
      assert "abc"[..2] == t[0..2];
    }
    assert !Begins(t[0..3], ws) by {
      assert "abc"[2] != t[2];
    }
    assert t[0..2] !in ws by {
      assert t[0..2][0] != "bd"[0] && |t[0..2]| != |"abc"|;
    }
    assert Walk(t, ws, true, 0, 2) == ([], 2);
    assert Walk(t, ws, true, 0, 1) == ([], 2);
  }

  /** Without `part` the same text reports "bd". */
  lemma PlainFindsWord()
    ensures "bd" in Reports("abd", {"abc", "bd"}, false, 0)
  {
    var t, ws := "abd", {"abc", "bd"};
    assert LongWords(ws) by {
      assert |"abc"| == 3 && |"bd"| == 2;
    }
    ReportsThorough(t, ws, 0);
    assert OccursAt(t, "bd", 1) by {
      assert t[1..3] == "bd";
    }
    OccurrencesSpec(t, 0, ws, "bd");
  }
}
