/**
 * The words of `HashBucketFilter` bucketed by first character and then by
 * length, and the scan it runs over them, stated over the set of stored
 * words.
 */
module BucketSpec {
  import opened JavaStrings
  import opened Scan

  /** The first characters of the stored words. */
  ghost function Firsts(ws: set<string>): set<char> {
    set w | w in ws && w != [] :: w[0]
  }

  /** The lengths of the stored words beginning with `c`. */
  ghost function Lengths(ws: set<string>, c: char): set<nat> {
    set w | w in ws && w != [] && w[0] == c :: |w|
  }

  /** The stored words beginning with `c` and `n` characters long. */
  ghost function Bucket(ws: set<string>, c: char, n: nat): set<string> {
    set w | w in ws && w != [] && w[0] == c && |w| == n
  }

  /** The state the backend keeps for the stored words `ws`: first
      character, then length, then the words. */
  ghost function Bucketed(ws: set<string>): map<char, map<nat, set<string>>> {
    map c | c in Firsts(ws) :: map n | n in Lengths(ws, c) :: Bucket(ws, c, n)
  }

  /** A stored word sits in exactly one bucket: the one of its first
      character and its length. */
  lemma BucketedSpec(ws: set<string>, c: char, n: nat, w: string)
    ensures c in Bucketed(ws) && n in Bucketed(ws)[c] && w in Bucketed(ws)[c][n]
        <==> w in ws && w != [] && w[0] == c && |w| == n
  {
    if w in ws && w != [] && w[0] == c && |w| == n {
      assert c in Firsts(ws);
      assert n in Lengths(ws, c);
    }
  }

  /** `putOneWord` on the buckets: the word's bucket gains the word, the
      buckets it lands in are created when missing, and the result is the
      bucketing of the enlarged word set. */
  lemma BucketedAdd(ws: set<string>, w: string)
    requires w != []
    ensures var b := Bucketed(ws);
      var inner := if w[0] in b then b[w[0]] else map[];
      var words := if |w| in inner then inner[|w|] else {};
      Bucketed(ws + {w}) == b[w[0] := inner[|w| := words + {w}]]
  {
    var b := Bucketed(ws);
    var inner := if w[0] in b then b[w[0]] else map[];
    var words := if |w| in inner then inner[|w|] else {};
    var b' := b[w[0] := inner[|w| := words + {w}]];
    var ws' := ws + {w};
    assert Firsts(ws') == Firsts(ws) + {w[0]};
    forall c | c in Firsts(ws') ensures Bucketed(ws')[c] == b'[c] {
      if c == w[0] {
        FirstGrown(ws, w, inner, words);
      } else {
        OtherFirstKept(ws, w, c);
      }
    }
  }

  /** The bucket map of the new word's first character gains its length,
      whose bucket gains the word. */
  lemma FirstGrown(ws: set<string>, w: string, inner: map<nat, set<string>>, words: set<string>)
    requires w != []
    requires inner == if w[0] in Bucketed(ws) then Bucketed(ws)[w[0]] else map[]
    requires words == if |w| in inner then inner[|w|] else {}
    ensures Bucketed(ws + {w})[w[0]] == inner[|w| := words + {w}]
  {
    var ws', c := ws + {w}, w[0];
    assert c in Firsts(ws');
    assert Lengths(ws', c) == Lengths(ws, c) + {|w|};
    if c in Firsts(ws) {
      assert inner.Keys == Lengths(ws, c);
    } else {
      assert Lengths(ws, c) == {};
    }
    forall n | n in Lengths(ws', c) ensures Bucket(ws', c, n) == inner[|w| := words + {w}][n] {
      if n == |w| {
        assert Bucket(ws', c, n) == Bucket(ws, c, n) + {w};
        if n !in Lengths(ws, c) {
          assert Bucket(ws, c, n) == {};
        }
      } else {
        assert Bucket(ws', c, n) == Bucket(ws, c, n);
      }
    }
  }

  /** The bucket maps of the other first characters are kept. */
  lemma OtherFirstKept(ws: set<string>, w: string, c: char)
    requires w != [] && c != w[0] && c in Firsts(ws)
    ensures c in Bucketed(ws + {w}) && Bucketed(ws + {w})[c] == Bucketed(ws)[c]
  {
    var ws' := ws + {w};
    assert Lengths(ws', c) == Lengths(ws, c);
    forall n | n in Lengths(ws, c) ensures Bucket(ws', c, n) == Bucket(ws, c, n) {
    }
  }

  // ---------------------------------------------------------------------
  // The sizes of a bucket are probed from the shortest to the longest.

  /** `m` is the smallest element of `s`. */
  predicate IsMin(m: nat, s: set<nat>) {
    m in s && forall x :: x in s ==> m <= x
  }

  lemma {:induction false} MinExists(s: set<nat>)
    requires s != {}
    ensures exists m :: IsMin(m, s)
    decreases |s|
  {
    var y :| y in s;
    if s - {y} != {} {
      MinExists(s - {y});
      var m :| IsMin(m, s - {y});
      var least := if y < m then y else m;
      forall x | x in s ensures least <= x {
        if x != y {
          assert x in s - {y};
        }
      }
      assert IsMin(least, s);
    } else {
      forall x | x in s ensures y <= x {
        assert x !in s - {y};
      }
      assert IsMin(y, s);
    }
  }

  /** The elements of `s` in ascending order. */
  ghost function Ascending(s: set<nat>): (r: seq<nat>)
    ensures forall n :: n in r <==> n in s
    ensures s != {} ==> r != [] && IsMin(r[0], s)
    decreases |s|
  {
    if s == {} then []
    else
      MinExists(s);
      var m :| IsMin(m, s);
      [m] + Ascending(s - {m})
  }

  /** The list is strictly ascending. */
  lemma AscendingSorted(s: set<nat>)
    ensures forall a, b :: 0 <= a < b < |Ascending(s)| ==> Ascending(s)[a] < Ascending(s)[b]
  {
    forall a, b | 0 <= a < b < |Ascending(s)| ensures Ascending(s)[a] < Ascending(s)[b] {
      AscendingPair(s, a, b);
    }
  }

  /** Any two positions of the list are in ascending order. */
  lemma {:induction false} AscendingPair(s: set<nat>, a: nat, b: nat)
    requires a < b < |Ascending(s)|
    ensures Ascending(s)[a] < Ascending(s)[b]
    decreases |s|
  {
    var r := Ascending(s);
    var m := r[0];
    AscendingMin(s, m);
    var rest := Ascending(s - {m});
    assert r[b] == rest[b - 1];
    if a == 0 {
      assert rest[b - 1] in s - {m};
    } else {
      assert r[a] == rest[a - 1];
      AscendingPair(s - {m}, a - 1, b - 1);
    }
  }

  /** The smallest element comes first. */
  lemma AscendingMin(s: set<nat>, m: nat)
    requires IsMin(m, s)
    ensures Ascending(s) == [m] + Ascending(s - {m})
  {
  }

  // ---------------------------------------------------------------------
  // The scan, with the reports so far carried in `acc`.

  /** The sizes loop at position `i` for the first character `c`: every
      size `n` that fits is tried, and a hit is reported; with `part` the
      position then moves on by `n`, and the remaining sizes are tried from
      there (still in the bucket of `c`). The result is the reports and the
      final position. */
  ghost function ProbeAcc(t: string, ws: set<string>, c: char, sizes: seq<nat>, part: bool, i: nat, acc: seq<string>)
    : (r: (seq<string>, nat))
    ensures i <= r.1 && (i <= |t| ==> r.1 <= |t|)
    decreases |sizes|
  {
    if sizes == [] then (acc, i)
    else
      var n := sizes[0];
      if i + n > |t| then ProbeAcc(t, ws, c, sizes[1..], part, i, acc)
      else
        var w := t[i..i + n];
        if w in Bucket(ws, c, n) then ProbeAcc(t, ws, c, sizes[1..], part, if part then i + n else i, acc + [w])
        else ProbeAcc(t, ws, c, sizes[1..], part, i, acc)
  }

  /** The outer loop from position `i`: a position whose character begins no
      stored word is passed over; otherwise its sizes are probed and the
      scan goes on one past the position the probe ended at. */
  ghost function ScanAcc(t: string, ws: set<string>, part: bool, i: nat, acc: seq<string>): seq<string>
    decreases |t| - i
  {
    if i >= |t| then acc
    else if t[i] !in Firsts(ws) then ScanAcc(t, ws, part, i + 1, acc)
    else
      var r := ProbeAcc(t, ws, t[i], Ascending(Lengths(ws, t[i])), part, i, acc);
      ScanAcc(t, ws, part, r.1 + 1, r.0)
  }

  /** The reports of a whole `processor` call. */
  ghost function BucketReports(ws: set<string>, part: bool, content: string): seq<string> {
    if Unscanned(content) then [] else ScanAcc(Trim(content), ws, part, 0, [])
  }

  /** The reports carried in are kept. */
  lemma {:induction false} ProbePrefix(t: string, ws: set<string>, c: char, sizes: seq<nat>, part: bool, i: nat, acc: seq<string>)
    ensures Prefix(acc, ProbeAcc(t, ws, c, sizes, part, i, acc).0)
    decreases |sizes|
  {
    if sizes != [] {
      var n := sizes[0];
      if i + n <= |t| && t[i..i + n] in Bucket(ws, c, n) {
        ProbePrefix(t, ws, c, sizes[1..], part, if part then i + n else i, acc + [t[i..i + n]]);
      } else {
        ProbePrefix(t, ws, c, sizes[1..], part, i, acc);
      }
    }
  }

  lemma {:induction false} ScanPrefix(t: string, ws: set<string>, part: bool, i: nat, acc: seq<string>)
    ensures Prefix(acc, ScanAcc(t, ws, part, i, acc))
    decreases |t| - i
  {
    if i < |t| {
      if t[i] !in Firsts(ws) {
        ScanPrefix(t, ws, part, i + 1, acc);
      } else {
        var sizes := Ascending(Lengths(ws, t[i]));
        var r := ProbeAcc(t, ws, t[i], sizes, part, i, acc);
        ProbePrefix(t, ws, t[i], sizes, part, i, acc);
        ScanPrefix(t, ws, part, r.1 + 1, r.0);
      }
    }
  }

  /** Every report is a stored word occurring in the text. */
  lemma {:induction false} ProbeSound(t: string, ws: set<string>, c: char, sizes: seq<nat>, part: bool, i: nat, acc: seq<string>, x: string)
    requires x in ProbeAcc(t, ws, c, sizes, part, i, acc).0
    ensures x in acc || (x in ws && Occurs(x, t))
    decreases |sizes|
  {
    if sizes != [] {
      var n := sizes[0];
      if i + n <= |t| && t[i..i + n] in Bucket(ws, c, n) {
        var w := t[i..i + n];
        ProbeSound(t, ws, c, sizes[1..], part, if part then i + n else i, acc + [w], x);
        if x !in acc && x in acc + [w] {
          assert x == w && OccursAt(t, w, i);
        }
      } else {
        ProbeSound(t, ws, c, sizes[1..], part, i, acc, x);
      }
    }
  }

  lemma {:induction false} ScanSound(t: string, ws: set<string>, part: bool, i: nat, acc: seq<string>, x: string)
    requires x in ScanAcc(t, ws, part, i, acc)
    ensures x in acc || (x in ws && Occurs(x, t))
    decreases |t| - i
  {
    if i < |t| {
      if t[i] !in Firsts(ws) {
        ScanSound(t, ws, part, i + 1, acc, x);
      } else {
        var sizes := Ascending(Lengths(ws, t[i]));
        var r := ProbeAcc(t, ws, t[i], sizes, part, i, acc);
        ScanSound(t, ws, part, r.1 + 1, r.0, x);
        if x in r.0 {
          ProbeSound(t, ws, t[i], sizes, part, i, acc, x);
        }
      }
    }
  }

  /** Every report of a call is a stored word occurring in the trimmed
      content; unscanned content reports nothing. */
  lemma BucketReportsSound(ws: set<string>, part: bool, content: string, x: string)
    requires x in BucketReports(ws, part, content)
    ensures !Unscanned(content) && x in ws && Occurs(x, Trim(content))
  {
    ScanSound(Trim(content), ws, part, 0, [], x);
  }

  /** One step of the probe: a size whose text is a stored word of the
      bucket is reported. */
  lemma ProbeAccHit(t: string, ws: set<string>, c: char, n: nat, later: seq<nat>, part: bool, i: nat, acc: seq<string>)
    requires i + n <= |t| && t[i..i + n] in Bucket(ws, c, n)
    ensures ProbeAcc(t, ws, c, [n] + later, part, i, acc)
      == ProbeAcc(t, ws, c, later, part, if part then i + n else i, acc + [t[i..i + n]])
  {
    assert ([n] + later)[1..] == later;
  }

  /** One step of the probe: a size that does not fit, or whose text is not
      a stored word of the bucket, is passed over. */
  lemma ProbeAccMiss(t: string, ws: set<string>, c: char, n: nat, later: seq<nat>, part: bool, i: nat, acc: seq<string>)
    requires i + n > |t| || t[i..i + n] !in Bucket(ws, c, n)
    ensures ProbeAcc(t, ws, c, [n] + later, part, i, acc) == ProbeAcc(t, ws, c, later, part, i, acc)
  {
    assert ([n] + later)[1..] == later;
  }

  /** Without `part`, the probe at `i` reports every stored word at least
      `k` long starting there, shortest first. */
  lemma {:induction false} ProbeThorough(t: string, ws: set<string>, sizes: seq<nat>, i: nat, k: nat, acc: seq<string>)
    requires i < |t| && 1 <= k
    requires forall n :: n in sizes <==> n in Lengths(ws, t[i]) && n >= k
    requires forall a, b :: 0 <= a < b < |sizes| ==> sizes[a] < sizes[b]
    ensures ProbeAcc(t, ws, t[i], sizes, false, i, acc) == (acc + OccurrencesAt(t, i, k, ws), i)
    decreases |t| - i - k + 1
  {
    var c := t[i];
    if i + k > |t| {
      ProbeTooLong(t, ws, c, sizes, i, k, acc);
      assert acc + [] == acc;
    } else {
      var p := t[i..i + k];
      assert p[0] == c && |p| == k;
      assert p in Bucket(ws, c, k) <==> p in ws;
      if k in Lengths(ws, c) {
        SizesHead(sizes, Lengths(ws, c), k);
        assert sizes == [k] + sizes[1..];
        if p in ws {
          ProbeAccHit(t, ws, c, k, sizes[1..], false, i, acc);
          ProbeThorough(t, ws, sizes[1..], i, k + 1, acc + [p]);
          OccurrencesAtHit(t, i, k, ws);
          AppendAssoc(acc, [p], OccurrencesAt(t, i, k + 1, ws));
        } else {
          ProbeAccMiss(t, ws, c, k, sizes[1..], false, i, acc);
          ProbeThorough(t, ws, sizes[1..], i, k + 1, acc);
          OccurrencesAtMiss(t, i, k, ws);
        }
      } else {
        assert p in ws ==> |p| in Lengths(ws, c);
        ProbeThorough(t, ws, sizes, i, k + 1, acc);
        OccurrencesAtMiss(t, i, k, ws);
      }
    }
  }

  /** An ascending list of the elements of `s` from `k` on, when `k` is one
      of them, starts with `k` and goes on with those from `k + 1`. */
  lemma SizesHead(sizes: seq<nat>, s: set<nat>, k: nat)
    requires k in s
    requires forall n :: n in sizes <==> n in s && n >= k
    requires forall a, b :: 0 <= a < b < |sizes| ==> sizes[a] < sizes[b]
    ensures sizes != [] && sizes[0] == k
    ensures forall n :: n in sizes[1..] <==> n in s && n >= k + 1
    ensures forall a, b :: 0 <= a < b < |sizes[1..]| ==> sizes[1..][a] < sizes[1..][b]
  {
    assert k in sizes;
    var a :| 0 <= a < |sizes| && sizes[a] == k;
    assert sizes[0] <= sizes[a];
    assert sizes[0] in sizes;
    forall n ensures n in sizes[1..] <==> n in s && n >= k + 1 {
      if n in sizes[1..] {
        var b :| 0 <= b < |sizes[1..]| && sizes[1..][b] == n;
        assert sizes[0] < sizes[b + 1];
      }
      if n in s && n >= k + 1 {
        assert n in sizes;
        var b :| 0 <= b < |sizes| && sizes[b] == n;
        assert b != 0;
        assert sizes[1..][b - 1] == n;
      }
    }
  }

  /** Sizes that do not fit report nothing. */
  lemma {:induction false} ProbeTooLong(t: string, ws: set<string>, c: char, sizes: seq<nat>, i: nat, k: nat, acc: seq<string>)
    requires i + k > |t|
    requires forall n :: n in sizes ==> n >= k
    ensures ProbeAcc(t, ws, c, sizes, false, i, acc) == (acc, i)
    decreases |sizes|
  {
    if sizes != [] {
      assert sizes[0] in sizes;
      forall n | n in sizes[1..] ensures n >= k {
        var a :| 0 <= a < |sizes[1..]| && sizes[1..][a] == n;
        assert sizes[a + 1] in sizes;
      }
      ProbeTooLong(t, ws, c, sizes[1..], i, k, acc);
    }
  }

  /** One step of the outer loop: a position whose character begins no
      stored word is passed over. */
  lemma ScanAccSkip(t: string, ws: set<string>, part: bool, i: nat, acc: seq<string>)
    requires i < |t| && t[i] !in Firsts(ws)
    ensures ScanAcc(t, ws, part, i, acc) == ScanAcc(t, ws, part, i + 1, acc)
  {
  }

  /** One step of the outer loop: the sizes of the position are probed and
      the scan goes on one past where the probe ended. */
  lemma ScanAccProbe(t: string, ws: set<string>, part: bool, i: nat, acc: seq<string>)
    requires i < |t| && t[i] in Firsts(ws)
    ensures var r := ProbeAcc(t, ws, t[i], Ascending(Lengths(ws, t[i])), part, i, acc);
      ScanAcc(t, ws, part, i, acc) == ScanAcc(t, ws, part, r.1 + 1, r.0)
  {
  }

  /** A position whose character begins no stored word adds nothing to the
      reference list. */
  lemma NoFirstNoOccurrence(t: string, ws: set<string>, i: nat)
    requires i < |t| && t[i] !in Firsts(ws)
    ensures Occurrences(t, i, ws) == Occurrences(t, i + 1, ws)
  {
    forall w | w in ws && |w| >= 1 ensures w[..1] != t[i..i + 1] {
      assert w[..1] == [w[0]];
      assert w[0] in Firsts(ws);
    }
    OccurrencesAtNone(t, i, 1, 1, ws);
    assert [] + Occurrences(t, i + 1, ws) == Occurrences(t, i + 1, ws);
  }

  /** Without `part`, the scan reports every occurrence of every stored
      word, as the trie backends do. */
  lemma {:induction false} ScanThorough(t: string, ws: set<string>, i: nat, acc: seq<string>)
    requires i <= |t|
    ensures ScanAcc(t, ws, false, i, acc) == acc + Occurrences(t, i, ws)
    decreases |t| - i
  {
    if i == |t| {
      assert acc + [] == acc;
    } else if t[i] !in Firsts(ws) {
      ScanAccSkip(t, ws, false, i, acc);
      NoFirstNoOccurrence(t, ws, i);
      ScanThorough(t, ws, i + 1, acc);
    } else {
      var occ := OccurrencesAt(t, i, 1, ws);
      var rest := Occurrences(t, i + 1, ws);
      assert Occurrences(t, i, ws) == occ + rest;
      ScanAccProbe(t, ws, false, i, acc);
      AscendingSorted(Lengths(ws, t[i]));
      ProbeThorough(t, ws, Ascending(Lengths(ws, t[i])), i, 1, acc);
      ScanThorough(t, ws, i + 1, acc + occ);
      AppendAssoc(acc, occ, rest);
    }
  }

  /** Before its first hit, a probe does not depend on `part`: a probe that
      reports nothing leaves the position where it was. */
  lemma {:induction false} ProbeNothing(t: string, ws: set<string>, c: char, sizes: seq<nat>, i: nat, acc: seq<string>)
    ensures ProbeAcc(t, ws, c, sizes, true, i, acc).0 == acc <==> ProbeAcc(t, ws, c, sizes, false, i, acc).0 == acc
    ensures ProbeAcc(t, ws, c, sizes, true, i, acc).0 == acc ==> ProbeAcc(t, ws, c, sizes, true, i, acc).1 == i
    ensures ProbeAcc(t, ws, c, sizes, false, i, acc).1 == i
    decreases |sizes|
  {
    if sizes != [] {
      var n := sizes[0];
      if i + n <= |t| && t[i..i + n] in Bucket(ws, c, n) {
        var w := t[i..i + n];
        ProbePrefix(t, ws, c, sizes[1..], true, i + n, acc + [w]);
        ProbePrefix(t, ws, c, sizes[1..], false, i, acc + [w]);
        ProbeNothing(t, ws, c, sizes[1..], i, acc + [w]);
      } else {
        ProbeNothing(t, ws, c, sizes[1..], i, acc);
      }
    }
  }

  /** `contains` of this backend does not depend on `partMatch`: the
      position only moves on after a hit, so the first hit is found either
      way. */
  lemma {:induction false} ContainsAgree(t: string, ws: set<string>, i: nat)
    ensures ScanAcc(t, ws, true, i, []) == [] <==> ScanAcc(t, ws, false, i, []) == []
    decreases |t| - i
  {
    if i < |t| {
      if t[i] !in Firsts(ws) {
        ContainsAgree(t, ws, i + 1);
      } else {
        var sizes := Ascending(Lengths(ws, t[i]));
        ProbeNothing(t, ws, t[i], sizes, i, []);
        var rt := ProbeAcc(t, ws, t[i], sizes, true, i, []);
        var rf := ProbeAcc(t, ws, t[i], sizes, false, i, []);
        if rt.0 == [] {
          ContainsAgree(t, ws, i + 1);
        } else {
          ScanPrefix(t, ws, true, rt.1 + 1, rt.0);
          ScanPrefix(t, ws, false, rf.1 + 1, rf.0);
        }
      }
    }
  }

  /** What the `partMatch` jump loses: with the words {"ab", "bc"} and the
      text "abc", the hit "ab" moves the position past its "b", so "bc" is
      never reported; without `partMatch` it is. */
  lemma PartSkipsBucket()
    ensures BucketReports({"ab", "bc"}, true, "abc") == ["ab"]
    ensures "bc" in BucketReports({"ab", "bc"}, false, "abc")
  {
    var t, ws := "abc", {"ab", "bc"};
    assert !Unscanned(t) && Trim(t) == t by {
      assert !IsWhitespace(t[0]);
    }
    assert 'a' in Firsts(ws) by {
      assert "ab"[0] == 'a';
    }
    assert Lengths(ws, 'a') == {2} by {
      assert |"ab"| == 2;
    }
    assert Ascending({2}) == [2] by {
      assert {2} - {2} == {};
    }
    assert t[0..2] in Bucket(ws, 'a', 2) by {
      assert t[0..2] == "ab";
    }
    assert ProbeAcc(t, ws, 'a', [2], true, 0, []) == (["ab"], 2) by {
      assert [2][1..] == [];
      assert [] + [t[0..2]] == ["ab"];
    }
    ScanThorough(t, ws, 0, []);
    assert OccursAt(t, "bc", 1) by {
      assert t[1..3] == "bc";
    }
    OccurrencesSpec(t, 0, ws, "bc");
  }
}

/**
 * `HashBucketFilter`: the state maps a first character to a map from a
 * length to the set of stored words with that first character and length.
 */
module Bucket {
  import opened JavaStrings
  import opened Words
  import opened Scan
  import opened BucketSpec

  class HashBucketFilter {
    var state: map<char, map<nat, set<string>>>
    /** The stored (trimmed, accepted) words. */
    ghost var Words: set<string>

    ghost predicate Valid()
      reads this
    {
      state == Bucketed(Words)
    }

    /** `createState` gives an empty map and `load` puts every word of the
        set, in whatever order the set yields them. */
    constructor (wordSet: WordsCategory)
      ensures Valid() && Words == StoredWords(wordSet.words)
    {
      state := map[];
      Words := {};
      new;
      assert Firsts({}) == {};
      var rest := wordSet.words;
      ghost var done := {};
      while rest != {}
        invariant done + rest == wordSet.words
        invariant Valid() && Words == StoredWords(done)
        decreases |rest|
      {
        var w :| w in rest;
        var _ := PutOneWord(w);
        StoredWordsAdd(done, w);
        rest, done := rest - {w}, done + {w};
      }
    }

    /** `putOneWord`: a blank word, or one shorter than two characters once
        trimmed, is refused and nothing changes. Otherwise the bucket map of
        its first character and the bucket of its length are created when
        missing and the word is added to the bucket. */
    method PutOneWord(word: string) returns (ok: bool)
      requires Valid()
      modifies this
      ensures Valid()
      ensures ok == Accepted(word)
      ensures Words == if ok then old(Words) + {Trim(word)} else old(Words)
      ensures !ok ==> state == old(state)
    {
      if IsBlank(word) {
        return false;
      }
      var w := Trim(word);
      if |w| < 2 {
        return false;
      }
      var c := w[0];
      var buckets: map<nat, set<string>> := if c in state then state[c] else map[];
      var words := if |w| in buckets then buckets[|w|] else {};
      words := words + {w};
      BucketedAdd(Words, w);
      state := state[c := buckets[|w| := words]];
      Words := Words + {w};
      ok := true;
    }

    /** `processor`: nothing is scanned when the content is blank or shorter
        than two characters once trimmed. Otherwise every position whose
        character has a bucket map is probed with each of its sizes. The scan
        stops as soon as the callback answers true. */
    method Processor(part: bool, content: string, stop: string -> bool) returns (r: bool, calls: seq<string>)
      requires Valid()
      ensures calls == UpTo(BucketReports(Words, part, content), stop)
      ensures r == AnyStop(BucketReports(Words, part, content), stop)
    {
      if IsBlank(content) {
        return false, [];
      }
      var t := Trim(content);
      if |t| < 2 {
        return false, [];
      }
      ghost var all := ScanAcc(t, Words, part, 0, []);
      calls := [];
      var i := 0;
      while i < |t|
        invariant i <= |t| + 1
        invariant ScanAcc(t, Words, part, i, calls) == all
        invariant !AnyStop(calls, stop)
        decreases |t| - i
      {
        var stopped, calls', i' := ScanPosition(state, t, i, part, stop, calls, Words);
        if stopped {
          UpToStopped(all, calls', stop);
          return true, calls';
        }
        calls, i := calls', i';
      }
      UpToSpec(calls, stop);
      r := false;
    }
  }

  /** One round of the outer loop of `processor` at position `i`: passed
      over when `t[i]` has no bucket map, otherwise its sizes are probed and
      the scan goes on one past where the probe ended. */
  method ScanPosition(state: map<char, map<nat, set<string>>>, t: string, i: nat, part: bool, stop: string -> bool,
                      calls: seq<string>, ghost ws: set<string>)
    returns (stopped: bool, calls': seq<string>, i': nat)
    requires state == Bucketed(ws) && i < |t| && !AnyStop(calls, stop)
    ensures stopped ==> Prefix(calls', ScanAcc(t, ws, part, i, calls)) && StoppedAt(calls', stop)
    ensures !stopped ==> i < i' <= |t| + 1 && ScanAcc(t, ws, part, i, calls) == ScanAcc(t, ws, part, i', calls')
    ensures !stopped ==> !AnyStop(calls', stop)
  {
    var c := t[i];
    if c !in state {
      ScanAccSkip(t, ws, part, i, calls);
      return false, calls, i + 1;
    }
    BucketKeys(ws, c);
    ScanAccProbe(t, ws, part, i, calls);
    var j;
    stopped, calls', j := ProbeSizes(state[c], t, i, part, stop, calls, ws);
    i' := j + 1;
    if stopped {
      ghost var probe := ProbeAcc(t, ws, c, Ascending(Lengths(ws, c)), part, i, calls);
      ScanPrefix(t, ws, part, probe.1 + 1, probe.0);
      PrefixTrans(calls', probe.0, ScanAcc(t, ws, part, i, calls));
    }
  }

  /** The bucket map of a first character holds its lengths, each mapped
      to its bucket. */
  lemma BucketKeys(ws: set<string>, c: char)
    requires c in Bucketed(ws)
    ensures Bucketed(ws)[c].Keys == Lengths(ws, c)
    ensures forall n {:trigger Bucketed(ws)[c][n]} :: n in Bucketed(ws)[c] ==> Bucketed(ws)[c][n] == Bucket(ws, c, n)
  {
  }

  /** The sizes loop of `processor` at position `i`, over the bucket map of
      `t[i]`, shortest size first. With `part` a hit moves the position on
      by its length. */
  method ProbeSizes(buckets: map<nat, set<string>>, t: string, i: nat, part: bool, stop: string -> bool,
                    calls: seq<string>, ghost ws: set<string>)
    returns (stopped: bool, calls': seq<string>, i': nat)
    requires i < |t| && buckets.Keys == Lengths(ws, t[i])
    requires forall n {:trigger buckets[n]} :: n in buckets ==> buckets[n] == Bucket(ws, t[i], n)
    requires !AnyStop(calls, stop)
    ensures var probe := ProbeAcc(t, ws, t[i], Ascending(Lengths(ws, t[i])), part, i, calls);
      && (stopped ==> Prefix(calls', probe.0) && StoppedAt(calls', stop))
      && (!stopped ==> calls' == probe.0 && i' == probe.1 && !AnyStop(calls', stop))
  {
    ghost var c := t[i];
    ghost var whole := ProbeAcc(t, ws, c, Ascending(Lengths(ws, c)), part, i, calls);
    var sizes := buckets.Keys;
    calls' := calls;
    i' := i;
    while sizes != {}
      invariant sizes <= buckets.Keys && i' <= |t|
      invariant ProbeAcc(t, ws, c, Ascending(sizes), part, i', calls') == whole
      invariant !AnyStop(calls', stop)
      decreases |sizes|
    {
      MinExists(sizes);
      var n :| IsMin(n, sizes);
      AscendingMin(sizes, n);
      sizes := sizes - {n};
      var hit;
      hit, calls', i' := ProbeSize(buckets, t, i, n, Ascending(sizes), part, stop, calls', i', ws);
      if hit {
        return true, calls', i';
      }
    }
    stopped := false;
  }

  /** One size `n` of the sizes loop, at position `j`: when the text of that
      size is in its bucket it is reported to the callback, and with `part`
      the position moves on by `n`. */
  method ProbeSize(buckets: map<nat, set<string>>, t: string, i: nat, n: nat, ghost later: seq<nat>, part: bool,
                   stop: string -> bool, calls: seq<string>, j: nat, ghost ws: set<string>)
    returns (stopped: bool, calls': seq<string>, j': nat)
    requires i < |t| && j <= |t| && n in buckets && buckets[n] == Bucket(ws, t[i], n)
    requires !AnyStop(calls, stop)
    ensures var probe := ProbeAcc(t, ws, t[i], [n] + later, part, j, calls);
      && (stopped ==> Prefix(calls', probe.0) && StoppedAt(calls', stop))
      && (!stopped ==> probe == ProbeAcc(t, ws, t[i], later, part, j', calls') && j' <= |t| && !AnyStop(calls', stop))
  {
    if j + n > |t| || t[j..j + n] !in buckets[n] {
      ProbeAccMiss(t, ws, t[i], n, later, part, j, calls);
      return false, calls, j;
    }
    var word := t[j..j + n];
    ProbeAccHit(t, ws, t[i], n, later, part, j, calls);
    calls' := calls + [word];
    j' := if part then j + n else j;
    if stop(word) {
      ProbePrefix(t, ws, t[i], later, part, j', calls');
      assert calls'[..|calls'| - 1] == calls;
      return true, calls', j';
    }
    AnyStopAppend(calls, [word], stop);
    stopped := false;
  }
}
