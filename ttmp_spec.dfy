/**
 * The bit-signature tables of `TtmpFilter` and the scan it runs over them.
 * Every table is keyed by a character; a missing key reads as zero/false,
 * as an untouched array slot does.
 */
module TtmpSpec {
  import opened JavaStrings
  import opened Scan

  /** `Integer.MAX_VALUE`, the shortest-length slot before any word. */
  const MaxInt: int := 0x7fff_ffff

  /** The tables as one value. */
  datatype Tables = Tables(
    fastCheck: map<char, bv8>,     // bit p (p < 7) / bit 7 (p >= 7): the character occurs at offset p of a word
    fastLength: map<char, bv8>,    // bit min(7, |w| - 2): a word of two or more characters of that length begins here
    charCheck: map<char, bool>,    // the one-character words
    endCheck: map<char, bool>,     // the last characters of words of two or more characters
    hash: set<string>,             // the words of two or more characters
    minLen: int,
    maxLen: int)

  function Get(m: map<char, bv8>, c: char): bv8 {
    if c in m then m[c] else 0
  }

  function Flag(m: map<char, bool>, c: char): bool {
    c in m && m[c]
  }

  /** Bit `k` of a table slot, the source's `(slot & (1 << k)) != 0`; a
      Java byte widened to int keeps bits 0..7 in place. */
  predicate Bit(x: bv8, k: nat)
    requires k < 8
  {
    x & (1 << k) != 0
  }

  /** `Math.min(7, n)`. */
  function Cap(n: nat): nat {
    if n < 7 then n else 7
  }

  /** Setting bit `i` keeps every other bit. */
  lemma BitSet(x: bv8, i: nat, k: nat)
    requires i < 8 && k < 8
    ensures Bit(x | (1 << i), k) <==> Bit(x, k) || i == k
  {
  }

  // ---------------------------------------------------------------------
  // What the tables hold for a set of words.

  /** Some word has character `c` at an offset that maps to bit `k`. */
  ghost predicate Marked(ws: set<string>, c: char, k: nat) {
    exists w, p :: w in ws && 0 <= p < |w| && w[p] == c && Cap(p) == k
  }

  /** Some word of two or more characters begins with `c` and has a length
      that maps to bit `k`. */
  ghost predicate LengthMarked(ws: set<string>, c: char, k: nat) {
    exists w :: w in ws && 2 <= |w| && w[0] == c && Cap(|w| - 2) == k
  }

  /** Some word of two or more characters ends with `c`. */
  ghost predicate Ends(ws: set<string>, c: char) {
    exists w :: w in ws && 2 <= |w| && w[|w| - 1] == c
  }

  /** `m` is the longest length of the words, 0 for none. */
  ghost predicate IsMaxLen(ws: set<string>, m: int) {
    && (forall w :: w in ws ==> |w| <= m)
    && (if ws == {} then m == 0 else exists w :: w in ws && |w| == m)
  }

  /** `m` is the shortest length of the words, capped at `MaxInt`: the
      running `Math.min` from `Integer.MAX_VALUE`. */
  ghost predicate IsMinLen(ws: set<string>, m: int) {
    && (forall w :: w in ws ==> m <= |w|)
    && m <= MaxInt
    && (m == MaxInt || exists w :: w in ws && |w| == m)
  }

  /** Bit `k` of the slot of `c` is set exactly when some word has `c` at
      an offset mapped to `k`. */
  ghost predicate FastCheckHolds(m: map<char, bv8>, ws: set<string>) {
    forall c, k | 0 <= k < 8 :: Bit(Get(m, c), k) <==> Marked(ws, c, k)
  }

  ghost predicate FastLengthHolds(m: map<char, bv8>, ws: set<string>) {
    forall c, k | 0 <= k < 8 :: Bit(Get(m, c), k) <==> LengthMarked(ws, c, k)
  }

  ghost predicate CharCheckHolds(m: map<char, bool>, ws: set<string>) {
    forall c :: Flag(m, c) <==> [c] in ws
  }

  ghost predicate EndCheckHolds(m: map<char, bool>, ws: set<string>) {
    forall c :: Flag(m, c) <==> Ends(ws, c)
  }

  ghost predicate HashHolds(h: set<string>, ws: set<string>) {
    forall w :: w in h <==> w in ws && 2 <= |w|
  }

  /** The tables hold exactly the words `ws`, none of them empty. */
  ghost predicate Holds(T: Tables, ws: set<string>) {
    && (forall w :: w in ws ==> w != [])
    && FastCheckHolds(T.fastCheck, ws)
    && FastLengthHolds(T.fastLength, ws)
    && CharCheckHolds(T.charCheck, ws)
    && EndCheckHolds(T.endCheck, ws)
    && HashHolds(T.hash, ws)
    && IsMinLen(ws, T.minLen)
    && IsMaxLen(ws, T.maxLen)
  }

  // ---------------------------------------------------------------------
  // Building the tables one word at a time.

  /** The tables of a fresh `TtmpCacheNode`. */
  function EmptyTables(): (T: Tables)
    ensures Holds(T, {})
  {
    Tables(map[], map[], map[], map[], {}, MaxInt, 0)
  }

  /** The slot of `c` with bit `i` set, as `slot |= 1 << i` does. */
  function SetBit(m: map<char, bv8>, c: char, i: nat): map<char, bv8>
    requires i < 8
  {
    m[c := Get(m, c) | (1 << i)]
  }

  /** `SetBit` sets that one bit and keeps every other. */
  lemma SetBitSpec(m: map<char, bv8>, c: char, i: nat, d: char, k: nat)
    requires i < 8 && k < 8
    ensures Bit(Get(SetBit(m, c, i), d), k) <==> Bit(Get(m, d), k) || (d == c && k == i)
  {
    if d == c {
      BitSet(Get(m, c), i, k);
    }
  }

  /** `fastCheck` after the offsets `0 .. n-1` of `w` are marked: offset
      `p` sets bit `min(p, 7)` of the slot of `w[p]`. */
  function Mark(m: map<char, bv8>, w: string, n: nat): map<char, bv8>
    requires n <= |w|
  {
    if n == 0 then m else SetBit(Mark(m, w, n - 1), w[n - 1], Cap(n - 1))
  }

  /** The bits `Mark` sets are exactly those of the marked offsets. */
  lemma {:induction false} MarkSpec(m: map<char, bv8>, w: string, n: nat, c: char, k: nat)
    requires n <= |w| && k < 8
    ensures Bit(Get(Mark(m, w, n), c), k) <==> Bit(Get(m, c), k) || exists p :: 0 <= p < n && w[p] == c && Cap(p) == k
  {
    if n > 0 {
      MarkSpec(m, w, n - 1, c, k);
      SetBitSpec(Mark(m, w, n - 1), w[n - 1], Cap(n - 1), c, k);
      if exists p :: 0 <= p < n && w[p] == c && Cap(p) == k {
        var p :| 0 <= p < n && w[p] == c && Cap(p) == k;
        if p < n - 1 {
          assert exists q :: 0 <= q < n - 1 && w[q] == c && Cap(q) == k;
        }
      }
    }
  }

  /** The tables after `putOneWord(w)` for a word of one or more
      characters: every offset marked, the one-character words in
      `charCheck`, the longer ones in `endCheck`, `fastLength` and `hash`,
      and the length bounds moved. */
  function AddWord(T: Tables, w: string): Tables
    requires w != []
  {
    var short := |w| == 1;
    Tables(
      Mark(T.fastCheck, w, |w|),
      if short then T.fastLength else SetBit(T.fastLength, w[0], Cap(|w| - 2)),
      if short then T.charCheck[w[0] := true] else T.charCheck,
      if short then T.endCheck else T.endCheck[w[|w| - 1] := true],
      if short then T.hash else T.hash + {w},
      if T.minLen < |w| then T.minLen else |w|,
      if T.maxLen < |w| then |w| else T.maxLen)
  }

  lemma FastCheckAdd(m: map<char, bv8>, ws: set<string>, w: string)
    requires FastCheckHolds(m, ws)
    ensures FastCheckHolds(Mark(m, w, |w|), ws + {w})
  {
    forall c, k | 0 <= k < 8 ensures Bit(Get(Mark(m, w, |w|), c), k) <==> Marked(ws + {w}, c, k) {
      MarkSpec(m, w, |w|, c, k);
      if Marked(ws + {w}, c, k) && !Marked(ws, c, k) {
        var v, p :| v in ws + {w} && 0 <= p < |v| && v[p] == c && Cap(p) == k;
        assert v == w;
      }
    }
  }

  lemma FastLengthAdd(m: map<char, bv8>, ws: set<string>, w: string)
    requires FastLengthHolds(m, ws) && 2 <= |w|
    ensures FastLengthHolds(SetBit(m, w[0], Cap(|w| - 2)), ws + {w})
  {
    forall c, k | 0 <= k < 8 ensures Bit(Get(SetBit(m, w[0], Cap(|w| - 2)), c), k) <==> LengthMarked(ws + {w}, c, k) {
      SetBitSpec(m, w[0], Cap(|w| - 2), c, k);
      if LengthMarked(ws + {w}, c, k) && !LengthMarked(ws, c, k) {
        var v :| v in ws + {w} && 2 <= |v| && v[0] == c && Cap(|v| - 2) == k;
        assert v == w;
      }
    }
  }

  lemma EndCheckAdd(m: map<char, bool>, ws: set<string>, w: string)
    requires EndCheckHolds(m, ws) && 2 <= |w|
    ensures EndCheckHolds(m[w[|w| - 1] := true], ws + {w})
  {
    var e := w[|w| - 1];
    forall c ensures Flag(m[e := true], c) <==> Ends(ws + {w}, c) {
      if c == e {
        assert w in ws + {w};
      } else {
        assert Flag(m[e := true], c) == Flag(m, c);
        if Ends(ws, c) {
          var v :| v in ws && 2 <= |v| && v[|v| - 1] == c;
          assert v in ws + {w};
        }
        if Ends(ws + {w}, c) {
          var v :| v in ws + {w} && 2 <= |v| && v[|v| - 1] == c;
          assert v in ws;
        }
      }
    }
  }

  lemma ShortAdd(T: Tables, ws: set<string>, w: string)
    requires Holds(T, ws) && |w| == 1
    ensures FastLengthHolds(T.fastLength, ws + {w})
    ensures CharCheckHolds(T.charCheck[w[0] := true], ws + {w})
    ensures EndCheckHolds(T.endCheck, ws + {w})
    ensures HashHolds(T.hash, ws + {w})
  {
    assert w == [w[0]];
    forall c, k | 0 <= k < 8 ensures LengthMarked(ws + {w}, c, k) ==> LengthMarked(ws, c, k) {
    }
    forall c ensures Ends(ws + {w}, c) ==> Ends(ws, c) {
    }
  }

  lemma LongAdd(T: Tables, ws: set<string>, w: string)
    requires Holds(T, ws) && 2 <= |w|
    ensures CharCheckHolds(T.charCheck, ws + {w})
    ensures HashHolds(T.hash + {w}, ws + {w})
  {
    forall c ensures [c] != w {
      assert |[c]| != |w|;
    }
  }

  lemma LengthsAdd(T: Tables, ws: set<string>, w: string)
    requires Holds(T, ws) && w != []
    ensures IsMinLen(ws + {w}, AddWord(T, w).minLen)
    ensures IsMaxLen(ws + {w}, AddWord(T, w).maxLen)
  {
  }

  /** Adding one non-empty word keeps the tables exact. */
  lemma AddWordHolds(T: Tables, ws: set<string>, w: string)
    requires Holds(T, ws) && w != []
    ensures Holds(AddWord(T, w), ws + {w})
  {
    FastCheckAdd(T.fastCheck, ws, w);
    LengthsAdd(T, ws, w);
    if |w| == 1 {
      ShortAdd(T, ws, w);
    } else {
      FastLengthAdd(T.fastLength, ws, w);
      EndCheckAdd(T.endCheck, ws, w);
      LongAdd(T, ws, w);
    }
  }

  // ---------------------------------------------------------------------
  // The scan.

  /** Character `c` begins some word. */
  predicate First(T: Tables, c: char) {
    Bit(Get(T.fastCheck, c), 0)
  }

  /** The `partMatch` search `while (index < n - 1 && !first(t[++index]))`:
      the next position after `i` whose character begins a word, or the
      last position. */
  function SkipTo(t: string, T: Tables, i: nat): (r: nat)
    requires i < |t|
    ensures i <= r < |t|
    ensures i < |t| - 1 ==> i < r
    decreases |t| - i
  {
    if i >= |t| - 1 then i
    else if First(T, t[i + 1]) then i + 1
    else SkipTo(t, T, i + 1)
  }

  /** The start of a round at `index`: with `partMatch`, unless this is the
      very first position and it begins a word, the next position that
      begins a word. */
  function Start(t: string, T: Tables, part: bool, index: nat): (s: nat)
    requires index < |t|
    ensures index <= s < |t|
  {
    if part && (index > 0 || !First(T, t[index])) then SkipTo(t, T, index) else index
  }

  /** The last offset the window loop at start `s` tries:
      `min(maxWordLength, n - s - 1)`. */
  function Bound(t: string, T: Tables, s: nat): int
    requires s < |t|
  {
    if T.maxLen < |t| - s - 1 then T.maxLen else |t| - s - 1
  }

  /** The window test at offset `j` of start `s` that lets the loop go on:
      the character there may sit at that offset of a word. */
  predicate Continues(t: string, T: Tables, s: nat, j: nat)
    requires s + j < |t|
  {
    Bit(Get(T.fastCheck, t[s + j]), Cap(j))
  }

  /** The tests that lead to a lookup of `t[s..s+j+1]`, and the lookup. */
  predicate Hit(t: string, T: Tables, s: nat, j: nat)
    requires 1 <= j && s + j < |t|
  {
    && j + 1 >= T.minLen
    && Bit(Get(T.fastLength, t[s]), Cap(j - 1))
    && Flag(T.endCheck, t[s + j])
    && t[s..s + j + 1] in T.hash
  }

  /** The reports of the window loop at start `s` from offset `j` on. */
  function WindowAcc(t: string, T: Tables, s: nat, j: nat, acc: seq<string>): seq<string>
    requires s < |t| && 1 <= j
    decreases |t| - s - j
  {
    if j > Bound(t, T, s) || !Continues(t, T, s, j) then acc
    else WindowAcc(t, T, s, j + 1, if Hit(t, T, s, j) then acc + [t[s..s + j + 1]] else acc)
  }

  /** `count` after the window loop at start `s` from offset `j` on: one
      more for every character tried, the one that ends the loop included,
      that begins no word. */
  function WindowCount(t: string, T: Tables, s: nat, j: nat, count: nat): (r: nat)
    requires s < |t| && 1 <= j
    ensures count <= r
    decreases |t| - s - j
  {
    if j > Bound(t, T, s) then count
    else
      var count' := if First(T, t[s + j]) then count else count + 1;
      if !Continues(t, T, s, j) then count' else WindowCount(t, T, s, j + 1, count')
  }

  /** The one-character report of start `s`. */
  predicate Single(T: Tables, c: char) {
    T.minLen == 1 && Flag(T.charCheck, c)
  }

  /** The rounds of the scan from `index`: each round reports at its start
      and moves on by one (`partMatch`) or by `count`. */
  function ScanAcc(t: string, T: Tables, part: bool, index: nat, acc: seq<string>): seq<string>
    decreases |t| - index
  {
    if index >= |t| then acc
    else
      var s := Start(t, T, part, index);
      var acc1 := if Single(T, t[s]) then acc + [[t[s]]] else acc;
      ScanAcc(t, T, part, Next(t, T, part, index), WindowAcc(t, T, s, 1, acc1))
  }

  /** Where the round at `index` leaves the scan: one past its start
      (`partMatch`), or its start moved on by `count`. */
  function Next(t: string, T: Tables, part: bool, index: nat): (n: nat)
    requires index < |t|
    ensures index < n
  {
    var s := Start(t, T, part, index);
    if part then s + 1 else s + WindowCount(t, T, s, 1, 1)
  }

  /** The window loop only appends to what was reported before. */
  lemma {:induction false} WindowAccPrefix(t: string, T: Tables, s: nat, j: nat, acc: seq<string>)
    requires s < |t| && 1 <= j
    ensures Prefix(acc, WindowAcc(t, T, s, j, acc))
    decreases |t| - s - j
  {
    if !(j > Bound(t, T, s) || !Continues(t, T, s, j)) {
      var acc' := if Hit(t, T, s, j) then acc + [t[s..s + j + 1]] else acc;
      assert Prefix(acc, acc') by {
        assert acc'[..|acc|] == acc;
      }
      WindowAccPrefix(t, T, s, j + 1, acc');
      PrefixTrans(acc, acc', WindowAcc(t, T, s, j + 1, acc'));
    }
  }

  /** The scan only appends to what was reported before. */
  lemma {:induction false} ScanAccPrefix(t: string, T: Tables, part: bool, index: nat, acc: seq<string>)
    ensures Prefix(acc, ScanAcc(t, T, part, index, acc))
    decreases |t| - index
  {
    if index < |t| {
      var s := Start(t, T, part, index);
      var acc1 := if Single(T, t[s]) then acc + [[t[s]]] else acc;
      var acc2 := WindowAcc(t, T, s, 1, acc1);
      assert Prefix(acc, acc1) by {
        assert acc1[..|acc|] == acc;
      }
      WindowAccPrefix(t, T, s, 1, acc1);
      PrefixTrans(acc, acc1, acc2);
      ScanAccPrefix(t, T, part, Next(t, T, part, index), acc2);
      PrefixTrans(acc, acc2, ScanAcc(t, T, part, Next(t, T, part, index), acc2));
    }
  }

  /** The reports of a whole `processor` call: nothing for blank content,
      otherwise the scan of the trimmed content. */
  function TtmpReports(T: Tables, part: bool, content: string): seq<string> {
    if IsBlank(content) then [] else ScanAcc(Trim(content), T, part, 0, [])
  }

  /** The starts the scan visits from `index`. */
  function Rounds(t: string, T: Tables, part: bool, index: nat): (r: seq<nat>)
    ensures forall k :: 0 <= k < |r| ==> index <= r[k] < |t|
    decreases |t| - index
  {
    if index >= |t| then []
    else
      [Start(t, T, part, index)] + Rounds(t, T, part, Next(t, T, part, index))
  }

  /** All stored words found at the starts `starts`, start by start,
      shortest first. */
  function FoundAt(t: string, ws: set<string>, starts: seq<nat>): seq<string>
    requires forall k :: 0 <= k < |starts| ==> starts[k] <= |t|
  {
    if starts == [] then [] else OccurrencesAt(t, starts[0], 1, ws) + FoundAt(t, ws, starts[1..])
  }

  // ---------------------------------------------------------------------
  // At a start it visits, the scan finds exactly the stored words there.

  /** A word list where no word is `k` or more characters long has no
      occurrence of that length. */
  lemma {:induction false} OccurrencesAtShort(t: string, i: nat, k: nat, ws: set<string>)
    requires i <= |t| && forall w :: w in ws ==> |w| < k
    ensures OccurrencesAt(t, i, k, ws) == []
    decreases |t| - i - k
  {
    if i + k <= |t| {
      assert t[i..i + k] !in ws;
      OccurrencesAtShort(t, i, k + 1, ws);
    }
  }

  /** The window loop ends only where no longer stored word can begin at
      `s`: past the longest word or the text, or at a character that sits
      at that offset of no word. */
  lemma WindowEndMeans(t: string, T: Tables, ws: set<string>, s: nat, j: nat)
    requires Holds(T, ws) && s < |t| && 1 <= j
    requires j > Bound(t, T, s) || !Continues(t, T, s, j)
    ensures OccurrencesAt(t, s, j + 1, ws) == []
  {
    if T.maxLen < j {
      OccurrencesAtShort(t, s, j + 1, ws);
    } else if s + j < |t| {
      forall w | w in ws && |w| >= j + 1 ensures w[..j + 1] != t[s..s + j + 1] {
        assert Marked(ws, w[j], Cap(j));
        assert w[..j + 1][j] != t[s..s + j + 1][j];
      }
      OccurrencesAtNone(t, s, j + 1, j + 1, ws);
    }
  }

  /** The tests before the lookup pass for every stored word: a lookup hits
      exactly when the candidate is a stored word. */
  lemma HitMeans(t: string, T: Tables, ws: set<string>, s: nat, j: nat)
    requires Holds(T, ws) && 1 <= j && s + j < |t|
    ensures Hit(t, T, s, j) <==> t[s..s + j + 1] in ws
  {
    var w := t[s..s + j + 1];
    if w in ws {
      assert w[0] == t[s] && w[j] == t[s + j];
      assert LengthMarked(ws, t[s], Cap(j - 1));
      assert Ends(ws, t[s + j]);
    }
  }

  lemma WindowAccEnd(t: string, T: Tables, s: nat, j: nat, acc: seq<string>)
    requires s < |t| && 1 <= j && (j > Bound(t, T, s) || !Continues(t, T, s, j))
    ensures WindowAcc(t, T, s, j, acc) == acc
  {
  }

  lemma WindowAccHit(t: string, T: Tables, s: nat, j: nat, acc: seq<string>)
    requires s < |t| && 1 <= j && j <= Bound(t, T, s) && Continues(t, T, s, j) && Hit(t, T, s, j)
    ensures WindowAcc(t, T, s, j, acc) == WindowAcc(t, T, s, j + 1, acc + [t[s..s + j + 1]])
  {
  }

  lemma WindowAccMiss(t: string, T: Tables, s: nat, j: nat, acc: seq<string>)
    requires s < |t| && 1 <= j && j <= Bound(t, T, s) && Continues(t, T, s, j) && !Hit(t, T, s, j)
    ensures WindowAcc(t, T, s, j, acc) == WindowAcc(t, T, s, j + 1, acc)
  {
  }

  /** What the tables say at offset `j` of start `s`: where the window
      loop ends no longer word begins there, and where it goes on the
      lookup hits exactly the stored words. */
  ghost predicate WindowFact(t: string, T: Tables, ws: set<string>, s: nat, j: nat)
    requires s < |t| && 1 <= j
  {
    if j > Bound(t, T, s) || !Continues(t, T, s, j) then OccurrencesAt(t, s, j + 1, ws) == []
    else Hit(t, T, s, j) == (t[s..s + j + 1] in ws)
  }

  ghost predicate WindowFacts(t: string, T: Tables, ws: set<string>, s: nat)
    requires s < |t|
  {
    forall j | 1 <= j :: WindowFact(t, T, ws, s, j)
  }

  lemma {:induction false} WindowExactFrom(t: string, T: Tables, ws: set<string>, s: nat, j: nat, acc: seq<string>)
    requires s < |t| && 1 <= j && WindowFacts(t, T, ws, s)
    ensures WindowAcc(t, T, s, j, acc) == acc + OccurrencesAt(t, s, j + 1, ws)
    decreases |t| - s - j
  {
    assert WindowFact(t, T, ws, s, j);
    if j > Bound(t, T, s) || !Continues(t, T, s, j) {
      WindowAccEnd(t, T, s, j, acc);
      assert acc + [] == acc;
    } else {
      var w := t[s..s + j + 1];
      if w in ws {
        WindowAccHit(t, T, s, j, acc);
        WindowExactFrom(t, T, ws, s, j + 1, acc + [w]);
        OccurrencesAtHit(t, s, j + 1, ws);
        AppendAssoc(acc, [w], OccurrencesAt(t, s, j + 2, ws));
      } else {
        WindowAccMiss(t, T, s, j, acc);
        WindowExactFrom(t, T, ws, s, j + 1, acc);
        OccurrencesAtMiss(t, s, j + 1, ws);
      }
    }
  }

  /** From offset `j` on, the window loop reports every stored word of
      `j + 1` or more characters beginning at `s`, shortest first. */
  lemma WindowExact(t: string, T: Tables, ws: set<string>, s: nat, j: nat, acc: seq<string>)
    requires Holds(T, ws) && s < |t| && 1 <= j
    ensures WindowAcc(t, T, s, j, acc) == acc + OccurrencesAt(t, s, j + 1, ws)
  {
    forall k | 1 <= k ensures WindowFact(t, T, ws, s, k) {
      if k > Bound(t, T, s) || !Continues(t, T, s, k) {
        WindowEndMeans(t, T, ws, s, k);
      } else {
        HitMeans(t, T, ws, s, k);
      }
    }
    WindowExactFrom(t, T, ws, s, j, acc);
  }

  /** The one-character report of a start is made exactly when that
      character is a stored word. */
  lemma SingleMeans(T: Tables, ws: set<string>, c: char)
    requires Holds(T, ws)
    ensures Single(T, c) <==> [c] in ws
  {
    if [c] in ws {
      var w :| w in ws && |w| == T.minLen;
      assert w != [];
    }
  }

  /** One round at start `s` reports every stored word beginning there,
      shortest first. */
  lemma RoundExact(t: string, T: Tables, ws: set<string>, s: nat, acc: seq<string>)
    requires Holds(T, ws) && s < |t|
    ensures WindowAcc(t, T, s, 1, if Single(T, t[s]) then acc + [[t[s]]] else acc) == acc + OccurrencesAt(t, s, 1, ws)
  {
    SingleMeans(T, ws, t[s]);
    assert t[s..s + 1] == [t[s]];
    if [t[s]] in ws {
      WindowExact(t, T, ws, s, 1, acc + [[t[s]]]);
      OccurrencesAtHit(t, s, 1, ws);
      AppendAssoc(acc, [[t[s]]], OccurrencesAt(t, s, 2, ws));
    } else {
      WindowExact(t, T, ws, s, 1, acc);
      OccurrencesAtMiss(t, s, 1, ws);
    }
  }

  lemma ScanAccRound(t: string, T: Tables, part: bool, index: nat, acc: seq<string>)
    requires index < |t|
    ensures var s := Start(t, T, part, index);
      var acc1 := if Single(T, t[s]) then acc + [[t[s]]] else acc;
      ScanAcc(t, T, part, index, acc) == ScanAcc(t, T, part, Next(t, T, part, index), WindowAcc(t, T, s, 1, acc1))
  {
  }

  lemma RoundsStep(t: string, T: Tables, part: bool, index: nat)
    requires index < |t|
    ensures Rounds(t, T, part, index) == [Start(t, T, part, index)] + Rounds(t, T, part, Next(t, T, part, index))
  {
  }

  lemma FoundAtCons(t: string, ws: set<string>, s: nat, starts: seq<nat>)
    requires s <= |t| && forall k :: 0 <= k < |starts| ==> starts[k] <= |t|
    ensures FoundAt(t, ws, [s] + starts) == OccurrencesAt(t, s, 1, ws) + FoundAt(t, ws, starts)
  {
    assert ([s] + starts)[1..] == starts;
  }

  /** The scan reports, start by start over the starts it visits, every
      stored word beginning there, shortest first; and nothing else. */
  lemma {:induction false} ScanExact(t: string, T: Tables, ws: set<string>, part: bool, index: nat, acc: seq<string>)
    requires Holds(T, ws)
    ensures ScanAcc(t, T, part, index, acc) == acc + FoundAt(t, ws, Rounds(t, T, part, index))
    decreases |t| - index
  {
    if index >= |t| {
      assert acc + [] == acc;
    } else {
      var s := Start(t, T, part, index);
      var next := Next(t, T, part, index);
      var here := OccurrencesAt(t, s, 1, ws);
      ScanAccRound(t, T, part, index, acc);
      RoundExact(t, T, ws, s, acc);
      ScanExact(t, T, ws, part, next, acc + here);
      RoundsStep(t, T, part, index);
      FoundAtCons(t, ws, s, Rounds(t, T, part, next));
      AppendAssoc(acc, here, FoundAt(t, ws, Rounds(t, T, part, next)));
    }
  }

  /** What the starts find: a stored word occurring at one of them. */
  lemma {:induction false} FoundAtSpec(t: string, ws: set<string>, starts: seq<nat>, x: string)
    requires forall k :: 0 <= k < |starts| ==> starts[k] <= |t|
    ensures x in FoundAt(t, ws, starts) <==> x in ws && x != [] && exists k :: 0 <= k < |starts| && OccursAt(t, x, starts[k])
    decreases |starts|
  {
    if starts != [] {
      FoundAtSpec(t, ws, starts[1..], x);
      OccurrencesAtSpec(t, starts[0], 1, ws, x);
      if exists k :: 0 <= k < |starts| && OccursAt(t, x, starts[k]) {
        var k :| 0 <= k < |starts| && OccursAt(t, x, starts[k]);
        if k > 0 {
          assert starts[1..][k - 1] == starts[k];
        }
      }
      if exists k :: 0 <= k < |starts[1..]| && OccursAt(t, x, starts[1..][k]) {
        var k :| 0 <= k < |starts[1..]| && OccursAt(t, x, starts[1..][k]);
        assert starts[k + 1] == starts[1..][k];
      }
    }
  }

  /** A report of a call is a stored word occurring in the trimmed content
      at a start the scan visits, and every stored word occurring at such a
      start is reported. */
  lemma TtmpReportsSpec(T: Tables, ws: set<string>, part: bool, content: string, x: string)
    requires Holds(T, ws)
    ensures x in TtmpReports(T, part, content) <==>
      !IsBlank(content) && x in ws &&
      exists k :: 0 <= k < |Rounds(Trim(content), T, part, 0)| && OccursAt(Trim(content), x, Rounds(Trim(content), T, part, 0)[k])
  {
    if !IsBlank(content) {
      var t := Trim(content);
      ScanExact(t, T, ws, part, 0, []);
      assert [] + FoundAt(t, ws, Rounds(t, T, part, 0)) == FoundAt(t, ws, Rounds(t, T, part, 0));
      FoundAtSpec(t, ws, Rounds(t, T, part, 0), x);
    }
  }

  // ---------------------------------------------------------------------
  // Without `partMatch` the scan can move past a stored word.

  /** Words {"ab", "bc"} and content "abc": the round at 0 counts the `c`
      that begins no word, so the next round starts at 2. */
  lemma CountSkipsRounds(T: Tables)
    requires Holds(T, {"ab", "bc"})
    ensures Rounds("abc", T, false, 0) == [0, 2]
  {
    var t, ws := "abc", {"ab", "bc"};
    assert Marked(ws, 'b', 0) by {
      assert "bc"[0] == 'b';
    }
    assert Marked(ws, 'b', 1) by {
      assert "ab"[1] == 'b';
    }
    assert !Marked(ws, 'c', 0) && !Marked(ws, 'c', 2);
    assert T.maxLen == 2 by {
      assert |"ab"| == 2 && |"bc"| == 2;
    }
    assert WindowCount(t, T, 0, 1, 1) == 2;
    assert WindowCount(t, T, 2, 1, 1) == 1;
  }

  /** "bc" occurs in "abc" at 1 only. */
  lemma OnlyAtOne()
    ensures OccursAt("abc", "bc", 1) && !OccursAt("abc", "bc", 0) && !OccursAt("abc", "bc", 2)
    ensures "bc" in Occurrences("abc", 0, {"ab", "bc"})
  {
    assert "abc"[1..3] == "bc";
    assert "abc"[0..2][0] != "bc"[0];
    OccurrencesSpec("abc", 0, {"ab", "bc"}, "bc");
  }

  lemma PlainAbc()
    ensures Trim("abc") == "abc" && !IsBlank("abc")
  {
    assert !IsWhitespace("abc"[0]);
  }

  /** So the "bc" at 1 is never looked up, although it occurs in the
      content. */
  lemma CountSkipsWord(T: Tables)
    requires Holds(T, {"ab", "bc"})
    ensures "bc" !in TtmpReports(T, false, "abc")
    ensures "bc" in Occurrences("abc", 0, {"ab", "bc"})
  {
    var t := "abc";
    CountSkipsRounds(T);
    OnlyAtOne();
    PlainAbc();
    TtmpReportsSpec(T, {"ab", "bc"}, false, t, "bc");
    NotAtStarts(Rounds(t, T, false, 0));
  }

  lemma NotAtStarts(r: seq<nat>)
    requires r == [0, 2]
    ensures !exists k :: 0 <= k < |r| && OccursAt("abc", "bc", r[k])
  {
    OnlyAtOne();
  }
}
