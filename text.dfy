/**
 * The Python string built-ins the report scripts use on a line of `ps`
 * output: `str.lower`, the `in` operator on strings, `str.strip`,
 * `re.split(r'\s+', ..., maxsplit=...)`, `int` and `float`.
 *
 * Whitespace (`\s` and what `strip` removes) is fixed to the six ASCII
 * whitespace characters; lower-casing is ASCII lower-casing.
 */
module Text {
  import opened Results

  /** ASCII whitespace: tab, line feed, vertical tab, form feed, carriage return, space. */
  predicate IsSpace(c: char) {
    '\t' <= c <= '\r' || c == ' '
  }

  predicate NoSpace(s: string) {
    forall i :: 0 <= i < |s| ==> !IsSpace(s[i])
  }

  predicate AllSpace(s: string) {
    forall i :: 0 <= i < |s| ==> IsSpace(s[i])
  }

  /** A string with no whitespace at either end, as `str.strip` leaves it. */
  predicate Stripped(s: string) {
    s == [] || (!IsSpace(s[0]) && !IsSpace(s[|s| - 1]))
  }

  // ---------------------------------------------------------------------
  // str.lower

  function LowerChar(c: char): char {
    if 'A' <= c <= 'Z' then (c as int - 'A' as int + 'a' as int) as char else c
  }

  /** Python's `str.lower` on ASCII: the letters A to Z change, nothing else does. */
  function Lower(s: string): (r: string)
    ensures |r| == |s|
    ensures forall i :: 0 <= i < |s| ==> (r[i] == s[i] <==> !('A' <= s[i] <= 'Z'))
  {
    seq(|s|, i requires 0 <= i < |s| => LowerChar(s[i]))
  }

  /** s has s or S, s or S, h or H at positions i, i + 1, i + 2. */
  predicate SshAt(s: string, i: int) {
    0 <= i && i + 3 <= |s| && s[i] in "sS" && s[i + 1] in "sS" && s[i + 2] in "hH"
  }

  /** The lower-cased text reads "ssh" at i exactly when s has s/S, s/S, h/H there. */
  lemma LowerSshAt(s: string, i: nat)
    requires i + 3 <= |s|
    ensures Lower(s)[i..i + 3] == "ssh" <==>
      s[i] in "sS" && s[i + 1] in "sS" && s[i + 2] in "hH"
  {
    var w := Lower(s)[i..i + 3];
    assert w == [LowerChar(s[i]), LowerChar(s[i + 1]), LowerChar(s[i + 2])];
  }

  // ---------------------------------------------------------------------
  // sub in s

  predicate StartsWith(s: string, prefix: string) {
    |prefix| <= |s| && s[..|prefix|] == prefix
  }

  /** Python's `sub in s`. */
  predicate Contains(s: string, sub: string)
    ensures Contains(s, sub) ==> |sub| <= |s|
    decreases |s|
  {
    StartsWith(s, sub) || (s != [] && Contains(s[1..], sub))
  }

  predicate OccursAt(s: string, sub: string, i: int) {
    0 <= i && i + |sub| <= |s| && s[i..i + |sub|] == sub
  }

  /** `sub in s` holds exactly when sub occurs at some position of s. */
  lemma {:induction false} ContainsIffOccurs(s: string, sub: string)
    ensures Contains(s, sub) <==> exists i :: OccursAt(s, sub, i)
    decreases |s|
  {
    if StartsWith(s, sub) {
      assert OccursAt(s, sub, 0);
    } else if s != [] {
      ContainsIffOccurs(s[1..], sub);
      if Contains(s[1..], sub) {
        var i :| OccursAt(s[1..], sub, i);
        assert s[1..][i..i + |sub|] == s[i + 1..i + 1 + |sub|];
        assert OccursAt(s, sub, i + 1);
      }
      if exists i :: OccursAt(s, sub, i) {
        var i :| OccursAt(s, sub, i);
        if i > 0 {
          assert s[1..][i - 1..i - 1 + |sub|] == s[i..i + |sub|];
          assert OccursAt(s[1..], sub, i - 1);
        }
      }
    }
  }

  /** A string lacking one of the characters of `sub` does not contain `sub`. */
  lemma MissingCharNotContained(s: string, sub: string, i: nat)
    requires i < |sub| && sub[i] !in s
    ensures !Contains(s, sub)
  {
    ContainsIffOccurs(s, sub);
  }

  // ---------------------------------------------------------------------
  // Scanning a string from a position

  /** The end of the non-whitespace stretch that starts at k: the first whitespace at or after k, or |s|. */
  function SkipWord(s: string, k: nat): (j: nat)
    requires k <= |s|
    ensures k <= j <= |s| && (j < |s| ==> IsSpace(s[j]))
    decreases |s| - k
  {
    if k == |s| || IsSpace(s[k]) then k else SkipWord(s, k + 1)
  }

  /** The end of the whitespace stretch that starts at k: the first non-whitespace at or after k, or |s|. */
  function SkipSpaces(s: string, k: nat): (j: nat)
    requires k <= |s|
    ensures k <= j <= |s| && (j < |s| ==> !IsSpace(s[j]))
    decreases |s| - k
  {
    if k == |s| || !IsSpace(s[k]) then k else SkipSpaces(s, k + 1)
  }

  /** The start of the whitespace stretch that ends at hi, looking no further back than lo. */
  function TrimEnd(s: string, lo: nat, hi: nat): (j: nat)
    requires lo <= hi <= |s|
    ensures lo <= j <= hi && (lo < j ==> !IsSpace(s[j - 1]))
    decreases hi
  {
    if hi == lo || !IsSpace(s[hi - 1]) then hi else TrimEnd(s, lo, hi - 1)
  }

  lemma {:induction false} SkipWordNoSpace(s: string, k: nat)
    requires k <= |s|
    ensures forall m :: k <= m < SkipWord(s, k) ==> !IsSpace(s[m])
    decreases |s| - k
  {
    if k < |s| && !IsSpace(s[k]) {
      SkipWordNoSpace(s, k + 1);
    }
  }

  lemma {:induction false} SkipSpacesAllSpace(s: string, k: nat)
    requires k <= |s|
    ensures forall m :: k <= m < SkipSpaces(s, k) ==> IsSpace(s[m])
    decreases |s| - k
  {
    if k < |s| && IsSpace(s[k]) {
      SkipSpacesAllSpace(s, k + 1);
    }
  }

  lemma {:induction false} TrimEndAllSpace(s: string, lo: nat, hi: nat)
    requires lo <= hi <= |s|
    ensures forall m :: TrimEnd(s, lo, hi) <= m < hi ==> IsSpace(s[m])
    decreases hi
  {
    if hi > lo && IsSpace(s[hi - 1]) {
      TrimEndAllSpace(s, lo, hi - 1);
    }
  }

  /** A stretch with no whitespace that ends at whitespace or at the end is what SkipWord finds. */
  lemma {:induction false} SkipWordExact(s: string, k: nat, m: nat)
    requires k <= m <= |s| && (m < |s| ==> IsSpace(s[m]))
    requires forall x :: k <= x < m ==> !IsSpace(s[x])
    ensures SkipWord(s, k) == m
    decreases m - k
  {
    if k < m {
      SkipWordExact(s, k + 1, m);
    }
  }

  /** A whitespace stretch that ends at non-whitespace or at the end is what SkipSpaces finds. */
  lemma {:induction false} SkipSpacesExact(s: string, k: nat, m: nat)
    requires k <= m <= |s| && (m < |s| ==> !IsSpace(s[m]))
    requires forall x :: k <= x < m ==> IsSpace(s[x])
    ensures SkipSpaces(s, k) == m
    decreases m - k
  {
    if k < m {
      SkipSpacesExact(s, k + 1, m);
    }
  }

  // ---------------------------------------------------------------------
  // str.strip

  /** r is s with the whitespace prefix s[..i] and a whitespace suffix cut off. */
  predicate TrimmedAt(s: string, r: string, i: int) {
    0 <= i && i + |r| <= |s| && r == s[i..i + |r|] && AllSpace(s[..i]) && AllSpace(s[i + |r|..])
  }

  /** Python's `s.strip()`: drops the whitespace at both ends and nothing else. */
  function Strip(s: string): (r: string)
    ensures Stripped(r)
    ensures exists i :: TrimmedAt(s, r, i)
  {
    var a := SkipSpaces(s, 0);
    var b := TrimEnd(s, a, |s|);
    var r := s[a..b];
    assert TrimmedAt(s, r, a) by {
      SkipSpacesAllSpace(s, 0);
      TrimEndAllSpace(s, a, |s|);
      var front, back := s[..a], s[b..];
      assert AllSpace(front) by {
        forall m | 0 <= m < |front| ensures IsSpace(front[m]) {
          assert front[m] == s[m];
        }
      }
      assert AllSpace(back) by {
        forall m | 0 <= m < |back| ensures IsSpace(back[m]) {
          assert back[m] == s[b + m];
        }
      }
    }
    r
  }

  /** A string already without surrounding whitespace is left as it is. */
  lemma StripKeepsStripped(s: string)
    requires Stripped(s)
    ensures Strip(s) == s
  {
    if s != [] {
      assert SkipSpaces(s, 0) == 0;
      assert TrimEnd(s, 0, |s|) == |s|;
    }
  }

  /** A whitespace stretch that ends at hi and starts after non-whitespace, or at lo, is what TrimEnd finds. */
  lemma {:induction false} TrimEndExact(s: string, lo: nat, hi: nat, m: nat)
    requires lo <= m <= hi <= |s| && (lo < m ==> !IsSpace(s[m - 1]))
    requires forall x :: m <= x < hi ==> IsSpace(s[x])
    ensures TrimEnd(s, lo, hi) == m
    decreases hi - m
  {
    if m < hi {
      TrimEndExact(s, lo, hi - 1, m);
    }
  }

  /** A nonempty stripped string padded with whitespace on both sides strips back to itself. */
  lemma StripPadded(lead: string, s: string, trail: string)
    requires AllSpace(lead) && AllSpace(trail) && s != [] && Stripped(s)
    ensures Strip(lead + s + trail) == s
  {
    var t := lead + s + trail;
    var a, b := |lead|, |lead| + |s|;
    assert t[a] == s[0] && t[b - 1] == s[|s| - 1];
    forall x | 0 <= x < a ensures IsSpace(t[x]) {
      assert t[x] == lead[x];
    }
    SkipSpacesExact(t, 0, a);
    forall x | b <= x < |t| ensures IsSpace(t[x]) {
      assert t[x] == trail[x - b];
    }
    TrimEndExact(t, a, |t|, b);
    assert t[a..b] == s;
  }

  // ---------------------------------------------------------------------
  // re.split(r'\s+', s, maxsplit=n)

  /**
   * `re.split(r'\s+', s[k..], maxsplit=splits)` for `splits >= 1`: the rest
   * of s from k is cut at its first `splits` maximal whitespace runs, and
   * the last piece keeps what is left, whitespace included. (With
   * `splits == 0` no cut is made; unlike Python, 0 does not mean "no limit".)
   */
  function SplitFrom(s: string, k: nat, splits: nat): seq<string>
    requires k <= |s|
    decreases splits
  {
    var i := SkipWord(s, k);
    if splits == 0 || i == |s| then [s[k..]]
    else [s[k..i]] + SplitFrom(s, SkipSpaces(s, i), splits - 1)
  }

  /** The whitespace runs that SplitFrom cuts at, in order. */
  function SeparatorsFrom(s: string, k: nat, splits: nat): seq<string>
    requires k <= |s|
    decreases splits
  {
    var i := SkipWord(s, k);
    if splits == 0 || i == |s| then []
    else [s[i..SkipSpaces(s, i)]] + SeparatorsFrom(s, SkipSpaces(s, i), splits - 1)
  }

  /** `re.split(r'\s+', s, maxsplit=splits)`. */
  function SplitWs(s: string, splits: nat): seq<string> {
    SplitFrom(s, 0, splits)
  }

  function Separators(s: string, splits: nat): seq<string> {
    SeparatorsFrom(s, 0, splits)
  }

  /** parts[0] + seps[0] + parts[1] + ... + seps[n-1] + parts[n]. */
  function Interleave(parts: seq<string>, seps: seq<string>): string
    requires |parts| == |seps| + 1
    decreases |seps|
  {
    if seps == [] then parts[0] else parts[0] + seps[0] + Interleave(parts[1..], seps[1..])
  }

  lemma {:induction false} SeparatorsFromAreRuns(s: string, k: nat, splits: nat)
    requires k <= |s|
    ensures forall m :: 0 <= m < |SeparatorsFrom(s, k, splits)| ==>
      SeparatorsFrom(s, k, splits)[m] != [] && AllSpace(SeparatorsFrom(s, k, splits)[m])
    decreases splits
  {
    var i := SkipWord(s, k);
    if splits != 0 && i != |s| {
      var j := SkipSpaces(s, i);
      SeparatorsFromAreRuns(s, j, splits - 1);
      var sep := s[i..j];
      assert sep != [] && AllSpace(sep) by {
        SkipSpacesAllSpace(s, i);
        forall m | 0 <= m < |sep| ensures IsSpace(sep[m]) {
          assert sep[m] == s[i + m];
        }
      }
      var seps := SeparatorsFrom(s, k, splits);
      assert seps == [sep] + SeparatorsFrom(s, j, splits - 1);
    }
  }

  /** Every cut is made at a nonempty run of whitespace. */
  lemma SeparatorsAreRuns(s: string, splits: nat)
    ensures forall m :: 0 <= m < |Separators(s, splits)| ==>
      Separators(s, splits)[m] != [] && AllSpace(Separators(s, splits)[m])
  {
    SeparatorsFromAreRuns(s, 0, splits);
  }

  lemma SeparatorsFromCut(s: string, k: nat, splits: nat, i: nat, j: nat)
    requires k <= |s| && splits != 0 && i == SkipWord(s, k) && i != |s| && j == SkipSpaces(s, i)
    ensures SeparatorsFrom(s, k, splits) == [s[i..j]] + SeparatorsFrom(s, j, splits - 1)
  {
  }

  lemma InterleaveCons(w: string, sep: string, parts: seq<string>, seps: seq<string>)
    requires |parts| == |seps| + 1
    ensures Interleave([w] + parts, [sep] + seps) == w + sep + Interleave(parts, seps)
  {
    assert ([w] + parts)[1..] == parts;
    assert ([sep] + seps)[1..] == seps;
  }

  lemma ThreeSlices(s: string, k: nat, i: nat, j: nat)
    requires k <= i <= j <= |s|
    ensures s[k..i] + s[i..j] + s[j..] == s[k..]
  {
  }

  lemma {:induction false} SplitFromRejoin(s: string, k: nat, splits: nat)
    requires k <= |s|
    ensures |SplitFrom(s, k, splits)| == |SeparatorsFrom(s, k, splits)| + 1
    ensures Interleave(SplitFrom(s, k, splits), SeparatorsFrom(s, k, splits)) == s[k..]
    decreases splits
  {
    var i := SkipWord(s, k);
    if splits != 0 && i != |s| {
      var j := SkipSpaces(s, i);
      SplitFromRejoin(s, j, splits - 1);
      SplitFromCut(s, k, splits, i, j);
      SeparatorsFromCut(s, k, splits, i, j);
      InterleaveCons(s[k..i], s[i..j], SplitFrom(s, j, splits - 1), SeparatorsFrom(s, j, splits - 1));
      ThreeSlices(s, k, i, j);
    } else {
      SplitFromWhole(s, k, splits);
    }
  }

  /**
   * Splitting loses nothing: the pieces with the whitespace runs put back
   * between them give s again.
   */
  lemma SplitRejoin(s: string, splits: nat)
    ensures |SplitWs(s, splits)| == |Separators(s, splits)| + 1
    ensures Interleave(SplitWs(s, splits), Separators(s, splits)) == s
  {
    SplitFromRejoin(s, 0, splits);
    assert s[0..] == s;
  }

  /** The word SplitFrom cuts off at k has no whitespace. */
  lemma WordAt(s: string, k: nat)
    requires k <= |s|
    ensures NoSpace(s[k..SkipWord(s, k)])
  {
    SkipWordNoSpace(s, k);
    var w := s[k..SkipWord(s, k)];
    forall m | 0 <= m < |w| ensures !IsSpace(w[m]) {
      assert w[m] == s[k + m];
    }
  }

  lemma SplitFromShape(s: string, k: nat, splits: nat)
    requires k <= |s|
    ensures 1 <= |SplitFrom(s, k, splits)| <= splits + 1
    ensures forall m :: 0 <= m < |SplitFrom(s, k, splits)| - 1 ==> NoSpace(SplitFrom(s, k, splits)[m])
    ensures exists e :: k <= e <= |s| && SplitFrom(s, k, splits)[|SplitFrom(s, k, splits)| - 1] == s[e..]
    ensures |SplitFrom(s, k, splits)| <= splits ==>
      NoSpace(SplitFrom(s, k, splits)[|SplitFrom(s, k, splits)| - 1])
  {
    SplitFromWords(s, k, splits);
    var e := SplitFromLast(s, k, splits);
  }

  lemma {:induction false} SplitFromWords(s: string, k: nat, splits: nat)
    requires k <= |s|
    ensures 1 <= |SplitFrom(s, k, splits)| <= splits + 1
    ensures forall m :: 0 <= m < |SplitFrom(s, k, splits)| - 1 ==> NoSpace(SplitFrom(s, k, splits)[m])
    decreases splits
  {
    var i := SkipWord(s, k);
    if splits == 0 || i == |s| {
      SplitFromWhole(s, k, splits);
    } else {
      var j := SkipSpaces(s, i);
      var parts, rest := SplitFrom(s, k, splits), SplitFrom(s, j, splits - 1);
      SplitFromWords(s, j, splits - 1);
      SplitFromCut(s, k, splits, i, j);
      WordAt(s, k);
      forall m | 0 <= m < |parts| - 1 ensures NoSpace(parts[m]) {
        if m > 0 {
          assert parts[m] == rest[m - 1];
        }
      }
    }
  }

  /** The last piece is the suffix of s from some e, without whitespace when fewer than `splits` cuts were made. */
  lemma {:induction false} SplitFromLast(s: string, k: nat, splits: nat) returns (e: nat)
    requires k <= |s|
    ensures k <= e <= |s| && SplitFrom(s, k, splits)[|SplitFrom(s, k, splits)| - 1] == s[e..]
    ensures |SplitFrom(s, k, splits)| <= splits ==>
      NoSpace(SplitFrom(s, k, splits)[|SplitFrom(s, k, splits)| - 1])
    decreases splits
  {
    var i := SkipWord(s, k);
    if splits == 0 || i == |s| {
      SplitFromWhole(s, k, splits);
      e := k;
      if i == |s| {
        WordAt(s, k);
      }
    } else {
      var j := SkipSpaces(s, i);
      var parts, rest := SplitFrom(s, k, splits), SplitFrom(s, j, splits - 1);
      e := SplitFromLast(s, j, splits - 1);
      SplitFromCut(s, k, splits, i, j);
      assert parts[|parts| - 1] == rest[|rest| - 1];
    }
  }

  /** Every piece but the last is free of whitespace. */
  lemma SplitWordsHaveNoSpace(s: string, splits: nat)
    ensures forall m :: 0 <= m < |SplitWs(s, splits)| - 1 ==> NoSpace(SplitWs(s, splits)[m])
  {
    SplitFromShape(s, 0, splits);
  }

  /** There are between 1 and `splits + 1` pieces, and the last one is a suffix of s, kept whole. */
  lemma SplitLastPiece(s: string, splits: nat)
    ensures 1 <= |SplitWs(s, splits)| <= splits + 1
    ensures var last := SplitWs(s, splits)[|SplitWs(s, splits)| - 1];
      |last| <= |s| && s[|s| - |last|..] == last
  {
    SplitFromShape(s, 0, splits);
  }

  /** Fewer than `splits + 1` pieces come out only when the last one has no whitespace left to cut. */
  lemma SplitStopsAtLastRun(s: string, splits: nat)
    ensures |SplitWs(s, splits)| <= splits ==> NoSpace(SplitWs(s, splits)[|SplitWs(s, splits)| - 1])
  {
    SplitFromShape(s, 0, splits);
  }

  lemma {:induction false} SplitFromCutsWholeRuns(s: string, k: nat, splits: nat)
    requires k <= |s|
    ensures forall m :: 1 <= m < |SplitFrom(s, k, splits)| ==>
      SplitFrom(s, k, splits)[m] == [] || !IsSpace(SplitFrom(s, k, splits)[m][0])
    decreases splits
  {
    var i := SkipWord(s, k);
    if splits != 0 && i != |s| {
      var j := SkipSpaces(s, i);
      var rest := SplitFrom(s, j, splits - 1);
      SplitFromCutsWholeRuns(s, j, splits - 1);
      var parts := SplitFrom(s, k, splits);
      assert parts == [s[k..i]] + rest;
      assert rest[0] == [] || !IsSpace(rest[0][0]) by {
        var e := SkipWord(s, j);
        if splits - 1 == 0 || e == |s| {
          assert rest[0] == s[j..];
        } else {
          assert rest[0] == s[j..e];
        }
      }
      forall m | 1 <= m < |parts| ensures parts[m] == [] || !IsSpace(parts[m][0]) {
        assert parts[m] == rest[m - 1];
      }
    }
  }

  /**
   * Runs are cut whole: every piece after the first is empty or starts with
   * a non-whitespace character.
   */
  lemma SplitCutsWholeRuns(s: string, splits: nat)
    ensures forall m :: 1 <= m < |SplitWs(s, splits)| ==>
      SplitWs(s, splits)[m] == [] || !IsSpace(SplitWs(s, splits)[m][0])
  {
    SplitFromCutsWholeRuns(s, 0, splits);
  }

  lemma {:induction false} SplitFromStrippedPieces(s: string, k: nat, splits: nat)
    requires k < |s| && !IsSpace(s[k]) && !IsSpace(s[|s| - 1])
    ensures forall m :: 0 <= m < |SplitFrom(s, k, splits)| ==>
      SplitFrom(s, k, splits)[m] != [] && Stripped(SplitFrom(s, k, splits)[m])
    decreases splits
  {
    var i := SkipWord(s, k);
    var parts := SplitFrom(s, k, splits);
    if splits != 0 && i != |s| {
      var j := SkipSpaces(s, i);
      assert j < |s| by {
        SkipSpacesAllSpace(s, i);
      }
      SplitFromStrippedPieces(s, j, splits - 1);
      var rest := SplitFrom(s, j, splits - 1);
      assert parts == [s[k..i]] + rest;
      assert i > k;
      var w := s[k..i];
      assert w[0] == s[k] && w[|w| - 1] == s[i - 1];
      SkipWordNoSpace(s, k);
      forall m | 0 <= m < |parts| ensures parts[m] != [] && Stripped(parts[m]) {
        if m > 0 {
          assert parts[m] == rest[m - 1];
        }
      }
    } else {
      assert parts == [s[k..]];
      var w := s[k..];
      assert w[0] == s[k] && w[|w| - 1] == s[|s| - 1];
    }
  }

  /**
   * For a nonempty string with no surrounding whitespace, as `str.strip`
   * leaves it, every piece is nonempty and itself has no surrounding
   * whitespace.
   */
  lemma SplitStrippedPieces(s: string, splits: nat)
    requires s != [] && Stripped(s)
    ensures forall m :: 0 <= m < |SplitWs(s, splits)| ==>
      SplitWs(s, splits)[m] != [] && Stripped(SplitWs(s, splits)[m])
  {
    SplitFromStrippedPieces(s, 0, splits);
  }

  /** Number of maximal whitespace runs in s[k..]. */
  function RunsFrom(s: string, k: nat): nat
    requires k <= |s|
    decreases |s| - k
  {
    if k == |s| then 0
    else if IsSpace(s[k]) then 1 + RunsFrom(s, SkipSpaces(s, k))
    else RunsFrom(s, k + 1)
  }

  /** Number of maximal whitespace runs in s. */
  function Runs(s: string): nat {
    RunsFrom(s, 0)
  }

  function Min(a: nat, b: nat): nat {
    if a <= b then a else b
  }

  /** Skipping the non-whitespace stretch at k does not change the number of runs. */
  lemma {:induction false} RunsAfterWord(s: string, k: nat)
    requires k <= |s|
    ensures RunsFrom(s, SkipWord(s, k)) == RunsFrom(s, k)
    decreases |s| - k
  {
    if k < |s| && !IsSpace(s[k]) {
      RunsAfterWord(s, k + 1);
    }
  }

  lemma {:induction false} SplitFromCount(s: string, k: nat, splits: nat)
    requires k <= |s|
    ensures |SplitFrom(s, k, splits)| == Min(RunsFrom(s, k), splits) + 1
    decreases splits
  {
    var i := SkipWord(s, k);
    RunsAfterWord(s, k);
    if splits != 0 && i != |s| {
      SplitFromCount(s, SkipSpaces(s, i), splits - 1);
    }
  }

  /** `re.split(r'\s+', s, maxsplit=n)` yields one piece per run cut, up to n cuts. */
  lemma SplitCount(s: string, splits: nat)
    ensures |SplitWs(s, splits)| == Min(Runs(s), splits) + 1
  {
    SplitFromCount(s, 0, splits);
  }

  // ---------------------------------------------------------------------
  // Joining words and splitting them again

  /** Words fit to be joined and split again: nonempty, no whitespace, except that the last may hold inner whitespace. */
  predicate Joinable(words: seq<string>) {
    && words != []
    && (forall k :: 0 <= k < |words| ==> words[k] != [])
    && (forall k :: 0 <= k < |words| - 1 ==> NoSpace(words[k]))
    && Stripped(words[|words| - 1])
  }

  /** Separators fit to be cut at: each a nonempty run of whitespace. */
  predicate Gaps(seps: seq<string>) {
    forall k :: 0 <= k < |seps| ==> seps[k] != [] && AllSpace(seps[k])
  }

  lemma {:induction false} SkipWordShift(p: string, t: string, k: nat)
    requires k <= |t|
    ensures SkipWord(p + t, |p| + k) == |p| + SkipWord(t, k)
    decreases |t| - k
  {
    if k < |t| {
      assert (p + t)[|p| + k] == t[k];
      if !IsSpace(t[k]) {
        SkipWordShift(p, t, k + 1);
      }
    }
  }

  lemma {:induction false} SkipSpacesShift(p: string, t: string, k: nat)
    requires k <= |t|
    ensures SkipSpaces(p + t, |p| + k) == |p| + SkipSpaces(t, k)
    decreases |t| - k
  {
    if k < |t| {
      assert (p + t)[|p| + k] == t[k];
      if IsSpace(t[k]) {
        SkipSpacesShift(p, t, k + 1);
      }
    }
  }

  /** One step of SplitFrom when a cut is made at the run ending the first word. */
  lemma SplitFromCut(s: string, k: nat, splits: nat, i: nat, j: nat)
    requires k <= |s| && splits != 0 && i == SkipWord(s, k) && i != |s| && j == SkipSpaces(s, i)
    ensures SplitFrom(s, k, splits) == [s[k..i]] + SplitFrom(s, j, splits - 1)
  {
  }

  /** SplitFrom keeps the rest whole when no cut is left or no whitespace follows the word. */
  lemma SplitFromWhole(s: string, k: nat, splits: nat)
    requires k <= |s| && (splits == 0 || SkipWord(s, k) == |s|)
    ensures SplitFrom(s, k, splits) == [s[k..]]
  {
  }

  lemma SliceAfterPrefix(p: string, t: string, a: nat, b: nat)
    requires a <= b <= |t|
    ensures (p + t)[|p| + a..|p| + b] == t[a..b]
  {
  }

  lemma ShiftWhole(p: string, t: string, k: nat, splits: nat)
    requires k <= |t| && (splits == 0 || SkipWord(t, k) == |t|)
    ensures SplitFrom(p + t, |p| + k, splits) == SplitFrom(t, k, splits)
  {
    SkipWordShift(p, t, k);
    SuffixAfterPrefix(p, t, k);
    SplitFromWhole(p + t, |p| + k, splits);
    SplitFromWhole(t, k, splits);
  }

  lemma ShiftCut(p: string, t: string, k: nat, splits: nat, i: nat, j: nat)
    requires k <= |t| && splits != 0 && i == SkipWord(t, k) && i != |t| && j == SkipSpaces(t, i)
    requires SplitFrom(p + t, |p| + j, splits - 1) == SplitFrom(t, j, splits - 1)
    ensures SplitFrom(p + t, |p| + k, splits) == SplitFrom(t, k, splits)
  {
    SkipWordShift(p, t, k);
    SkipSpacesShift(p, t, i);
    SliceAfterPrefix(p, t, k, i);
    SplitFromCut(p + t, |p| + k, splits, |p| + i, |p| + j);
    SplitFromCut(t, k, splits, i, j);
  }

  lemma SuffixAfterPrefix(p: string, t: string, a: nat)
    requires a <= |t|
    ensures (p + t)[|p| + a..] == t[a..]
  {
  }

  /** Splitting after a prefix is splitting what follows it. */
  lemma {:induction false} SplitFromShift(p: string, t: string, k: nat, splits: nat)
    requires k <= |t|
    ensures SplitFrom(p + t, |p| + k, splits) == SplitFrom(t, k, splits)
    decreases splits
  {
    var i := SkipWord(t, k);
    if splits != 0 && i != |t| {
      var j := SkipSpaces(t, i);
      SplitFromShift(p, t, j, splits - 1);
      ShiftCut(p, t, k, splits, i, j);
    } else {
      ShiftWhole(p, t, k, splits);
    }
  }

  /** Splitting `w + sep + rest` cuts off `w`, drops the run `sep` and continues on `rest`. */
  lemma SplitFirstWord(w: string, sep: string, rest: string, splits: nat)
    requires w != [] && NoSpace(w) && sep != [] && AllSpace(sep) && rest != [] && !IsSpace(rest[0])
    ensures SplitWs(w + sep + rest, splits + 1) == [w] + SplitWs(rest, splits)
  {
    var s := w + sep + rest;
    var p := w + sep;
    assert s == p + rest;
    SkipWordExact(s, 0, |w|);
    SkipSpacesExact(s, |w|, |p|);
    SplitFromShift(p, rest, 0, splits);
    assert s[0..|w|] == w;
  }

  /** Interleave from the k-th word on, one step unfolded. */
  lemma InterleaveFrom(words: seq<string>, seps: seq<string>, k: nat)
    requires |words| == |seps| + 1 && k < |seps|
    ensures Interleave(words[k..], seps[k..]) == words[k] + seps[k] + Interleave(words[k + 1..], seps[k + 1..])
  {
    assert words[k..][1..] == words[k + 1..] && seps[k..][1..] == seps[k + 1..];
  }

  lemma InterleaveFirst(words: seq<string>, seps: seq<string>)
    requires |words| == |seps| + 1 && words[0] != []
    ensures Interleave(words, seps) != [] && Interleave(words, seps)[0] == words[0][0]
  {
    if seps != [] {
      var tail := seps[0] + Interleave(words[1..], seps[1..]);
      assert Interleave(words, seps) == words[0] + tail;
    }
  }

  lemma {:induction false} InterleaveLast(words: seq<string>, seps: seq<string>)
    requires |words| == |seps| + 1 && words[|words| - 1] != []
    ensures Interleave(words, seps) != []
    ensures Interleave(words, seps)[|Interleave(words, seps)| - 1] == words[|words| - 1][|words[|words| - 1]| - 1]
    decreases |seps|
  {
    if seps != [] {
      var rest := words[1..];
      assert rest[|rest| - 1] == words[|words| - 1];
      InterleaveLast(rest, seps[1..]);
      var tail := Interleave(rest, seps[1..]);
      assert Interleave(words, seps) == (words[0] + seps[0]) + tail;
    }
  }

  lemma InterleaveEnds(words: seq<string>, seps: seq<string>)
    requires Joinable(words) && |words| == |seps| + 1
    ensures Interleave(words, seps) != []
    ensures Interleave(words, seps)[0] == words[0][0]
    ensures Interleave(words, seps)[|Interleave(words, seps)| - 1] == words[|words| - 1][|words[|words| - 1]| - 1]
  {
    InterleaveFirst(words, seps);
    InterleaveLast(words, seps);
  }

  /**
   * The converse of SplitRejoin: words joined by whitespace runs, split
   * with as many cuts as there are runs, come back as they were; the last
   * word keeps its inner whitespace.
   */
  lemma {:induction false} SplitInterleave(words: seq<string>, seps: seq<string>)
    requires Joinable(words) && |words| == |seps| + 1 && Gaps(seps)
    ensures Stripped(Interleave(words, seps))
    ensures SplitWs(Interleave(words, seps), |seps|) == words
    decreases |seps|
  {
    InterleaveEnds(words, seps);
    if seps == [] {
      assert SplitFrom(words[0], 0, 0) == [words[0][0..]];
      assert words[0][0..] == words[0];
    } else {
      var rest, restSeps := words[1..], seps[1..];
      assert Joinable(rest) by {
        assert rest[|rest| - 1] == words[|words| - 1];
      }
      SplitInterleave(rest, restSeps);
      InterleaveEnds(rest, restSeps);
      SplitFirstWord(words[0], seps[0], Interleave(rest, restSeps), |restSeps|);
      assert Interleave(words, seps) == words[0] + seps[0] + Interleave(rest, restSeps);
      assert words == [words[0]] + rest;
    }
  }

  // ---------------------------------------------------------------------
  // int() and float()

  predicate IsDigit(c: char) {
    '0' <= c <= '9'
  }

  predicate AllDigits(s: string) {
    forall i :: 0 <= i < |s| ==> IsDigit(s[i])
  }

  /** The number a string of decimal digits denotes ("" denotes 0). */
  function DigitsValue(s: string): nat
    requires AllDigits(s)
    decreases |s|
  {
    if s == [] then 0 else 10 * DigitsValue(s[..|s| - 1]) + (s[|s| - 1] as int - '0' as int)
  }

  /** Python's `int(s)` on a field of a split line: a nonempty run of ASCII digits, else a ValueError. */
  function ParseInt(s: string): Option<nat> {
    if s != [] && AllDigits(s) then Some(DigitsValue(s)) else None
  }

  function Pow10(k: nat): (p: nat)
    ensures p >= 1
  {
    if k == 0 then 1 else 10 * Pow10(k - 1)
  }

  /** Index of the first c in s, or |s| when there is none. */
  function IndexOf(s: string, c: char): (i: nat)
    ensures i <= |s| && (i < |s| ==> s[i] == c)
    ensures forall j :: 0 <= j < i ==> s[j] != c
    decreases |s|
  {
    if s == [] || s[0] == c then 0 else 1 + IndexOf(s[1..], c)
  }

  /**
   * Python's `float(s)` on an unsigned decimal: digits, optionally a '.' and
   * more digits, with at least one digit in all ("5", "5.", ".5", "2.5"),
   * giving the exact value; anything else is a ValueError.
   */
  function ParseFloat(s: string): Option<real> {
    var dot := IndexOf(s, '.');
    var whole := s[..dot];
    var frac := if dot < |s| then s[dot + 1..] else [];
    if AllDigits(whole) && AllDigits(frac) && (whole != [] || frac != []) then
      Some(DigitsValue(whole) as real + DigitsValue(frac) as real / Pow10(|frac|) as real)
    else
      None
  }

  function DigitChar(d: nat): char
    requires d < 10
  {
    ('0' as int + d) as char
  }

  /** The decimal text of n, without leading zeros, as `str(n)` and `ps` write it. */
  function ShowNat(n: nat): (s: string)
    ensures s != [] && AllDigits(s)
    decreases n
  {
    if n < 10 then [DigitChar(n)] else ShowNat(n / 10) + [DigitChar(n % 10)]
  }

  lemma {:induction false} DigitsValueShowNat(n: nat)
    ensures DigitsValue(ShowNat(n)) == n
    decreases n
  {
    if n >= 10 {
      var s := ShowNat(n / 10);
      DigitsValueShowNat(n / 10);
      assert (s + [DigitChar(n % 10)])[..|s|] == s;
    }
  }

  /** `int` reads back what `str` writes for every natural number. */
  lemma ParseIntShowNat(n: nat)
    ensures ParseInt(ShowNat(n)) == Some(n)
  {
    DigitsValueShowNat(n);
  }

  /** `float` agrees with `int` on every string both accept as a whole number. */
  lemma ParseFloatOfInt(s: string)
    requires ParseInt(s).Some?
    ensures ParseFloat(s) == Some(ParseInt(s).value as real)
  {
    var dot := IndexOf(s, '.');
    assert dot == |s|;
    assert s[..dot] == s;
  }

  /** `float` on digits, a point and digits. */
  lemma ParseFloatAt(s: string, dot: nat)
    requires dot < |s| && IndexOf(s, '.') == dot
    requires AllDigits(s[..dot]) && AllDigits(s[dot + 1..]) && s[..dot] != []
    ensures ParseFloat(s) == Some(DigitsValue(s[..dot]) as real + DigitsValue(s[dot + 1..]) as real / Pow10(|s| - dot - 1) as real)
  {
  }

  lemma OneDigitValue(d: nat)
    requires d < 10
    ensures AllDigits([DigitChar(d)]) && DigitsValue([DigitChar(d)]) == d
  {
    assert [DigitChar(d)][..0] == [];
  }

  /** `float` reads a percentage the way `ps` prints it, "n.d", as n + d/10. */
  lemma ParseFloatOneDecimal(n: nat, d: nat)
    requires d < 10
    ensures ParseFloat(ShowNat(n) + "." + [DigitChar(d)]) == Some(n as real + d as real / 10.0)
  {
    var w := ShowNat(n);
    var t := "." + [DigitChar(d)];
    var s := w + "." + [DigitChar(d)];
    assert s == w + t;
    IndexOfAfterDigits(w, t);
    assert s[..|w|] == w;
    assert s[|w| + 1..] == [DigitChar(d)];
    DigitsValueShowNat(n);
    OneDigitValue(d);
    ParseFloatAt(s, |w|);
    assert Pow10(|s| - |w| - 1) == 10;
  }

  /** A tenth-exact percentage `n / 10` as `ps` prints it: "n/10" then "." then the last digit of n. */
  function Tenths(n: nat): (s: string)
    ensures s != [] && NoSpace(s)
  {
    var w := ShowNat(n / 10);
    var s := w + "." + [DigitChar(n % 10)];
    assert forall i :: 0 <= i < |s| ==> !IsSpace(s[i]) by {
      forall i | 0 <= i < |s| ensures !IsSpace(s[i]) {
        if i < |w| {
          assert IsDigit(w[i]);
        }
      }
    }
    s
  }

  /** `float` reads back a percentage that `ps` printed with one decimal. */
  lemma ParseFloatTenths(n: nat)
    ensures ParseFloat(Tenths(n)) == Some(n as real / 10.0)
  {
    ParseFloatOneDecimal(n / 10, n % 10);
    assert (n / 10) as real + (n % 10) as real / 10.0 == n as real / 10.0;
  }

  lemma {:induction false} IndexOfAfterDigits(w: string, t: string)
    requires AllDigits(w) && t != [] && t[0] == '.'
    ensures IndexOf(w + t, '.') == |w|
    decreases |w|
  {
    if w != [] {
      assert (w + t)[1..] == w[1..] + t;
      IndexOfAfterDigits(w[1..], t);
    }
  }
}
