/** The interval extractor: the frame duration in milliseconds read from an
    archive's file name by the pattern `@(\d+)ms`, with a default of 40. */
module Interval {
  import opened Wrappers
  import opened Text

  /** The duration used when the name carries no `@<digits>ms` pattern. */
  const DefaultMs: nat := 40

  /** The regular expression `@(\d+)ms` matches `s` at position `i` with its
      digit group spanning [i + 1, j). Any such `j` counts, as it would for a
      backtracking matcher. */
  ghost predicate MatchesAt(s: string, i: int, j: int) {
    && 0 <= i
    && i + 1 < j
    && j + 2 <= |s|
    && s[i] == '@'
    && DigitsIn(s, i + 1, j)
    && s[j] == 'm'
    && s[j + 1] == 's'
  }

  /** The leftmost match, which is the one `re.search` reports. */
  ghost predicate LeftmostMatch(s: string, i: int, j: int) {
    && MatchesAt(s, i, j)
    && forall i', j' :: 0 <= i' < i ==> !MatchesAt(s, i', j')
  }

  ghost predicate NoMatch(s: string) {
    forall i, j :: !MatchesAt(s, i, j)
  }

  /** The end of the maximal run of digits starting at `k`. */
  function RunEnd(s: string, k: nat): (e: nat)
    requires k <= |s|
    ensures k <= e <= |s|
    ensures DigitsIn(s, k, e)
    ensures e == |s| || !IsDigit(s[e])
    decreases |s| - k
  {
    if k < |s| && IsDigit(s[k]) then RunEnd(s, k + 1) else k
  }

  /** Greedy matching loses nothing: at a given `@` the only possible end of
      the digit group is the end of the maximal digit run, because the `m`
      that must follow the group is not a digit. So backtracking never
      changes the match, and the group at a position is unique. */
  lemma GroupIsMaximalRun(s: string, i: int, j: int)
    requires MatchesAt(s, i, j)
    ensures j == RunEnd(s, i + 1)
  {
  }

  /** A match of the pattern: the position of the `@` and the end of the digit group. */
  datatype Span = Span(at: nat, end: nat)

  /** The scan of `re.search`, starting at position `i`: the first `@` whose
      maximal digit run is non-empty and followed by `ms`. */
  function SearchFrom(s: string, i: nat): (m: Option<Span>)
    requires i <= |s|
    ensures m.Some? ==> i <= m.value.at && MatchesAt(s, m.value.at, m.value.end)
    ensures m.Some? ==> forall a, j :: i <= a < m.value.at ==> !MatchesAt(s, a, j)
    ensures m.Some? ==> forall j :: MatchesAt(s, m.value.at, j) ==> j == m.value.end
    ensures m.None? ==> forall a, j :: i <= a ==> !MatchesAt(s, a, j)
    decreases |s| - i
  {
    if i == |s| then None
    else if s[i] == '@' && i + 1 < RunEnd(s, i + 1) && RunEnd(s, i + 1) + 2 <= |s|
         && s[RunEnd(s, i + 1)] == 'm' && s[RunEnd(s, i + 1) + 1] == 's'
    then
      var m := Some(Span(i, RunEnd(s, i + 1)));
      assert forall j :: MatchesAt(s, i, j) ==> j == RunEnd(s, i + 1) by {
        forall j | MatchesAt(s, i, j) ensures j == RunEnd(s, i + 1) {
          GroupIsMaximalRun(s, i, j);
        }
      }
      m
    else
      assert forall j :: !MatchesAt(s, i, j) by {
        forall j | MatchesAt(s, i, j) ensures false {
          GroupIsMaximalRun(s, i, j);
        }
      }
      SearchFrom(s, i + 1)
  }

  /** `find_ms_in_filename`: the value of the digit group of the leftmost
      match of `@(\d+)ms`, or 40 when the name has no match. */
  function FindMsInFilename(name: string): (r: nat)
    ensures NoMatch(name) ==> r == DefaultMs
    ensures forall i, j :: LeftmostMatch(name, i, j) ==> AllDigits(name[i + 1..j]) && r == DigitsValue(name[i + 1..j])
  {
    match SearchFrom(name, 0)
    case None => DefaultMs
    case Some(sp) =>
      assert AllDigits(name[sp.at + 1..sp.end]);
      var r := DigitsValue(name[sp.at + 1..sp.end]);
      assert forall i, j :: LeftmostMatch(name, i, j) ==> i == sp.at && j == sp.end by {
        forall i, j | LeftmostMatch(name, i, j) ensures i == sp.at && j == sp.end {
        }
      }
      r
  }

  /** A name that has a match also has a leftmost one, so the two clauses of
      `FindMsInFilename`'s contract together pin down its result on every name. */
  lemma {:induction false} SomeMatchHasLeftmost(s: string, i: int, j: int)
    requires MatchesAt(s, i, j)
    ensures exists i', j' :: LeftmostMatch(s, i', j')
    decreases i
  {
    if !LeftmostMatch(s, i, j) {
      var i', j' :| 0 <= i' < i && MatchesAt(s, i', j');
      SomeMatchHasLeftmost(s, i', j');
    }
  }

  /** A name whose first `@` is followed by a digit group and `ms` yields
      the value of that group, whatever comes after the pattern. */
  lemma FindsGroupAfterPrefix(prefix: string, digits: string, suffix: string)
    requires forall k :: 0 <= k < |prefix| ==> prefix[k] != '@'
    requires digits != [] && AllDigits(digits)
    ensures FindMsInFilename(prefix + "@" + digits + "ms" + suffix) == DigitsValue(digits)
  {
    var s := prefix + "@" + digits + "ms" + suffix;
    var i, j := |prefix|, |prefix| + 1 + |digits|;
    assert s[i + 1..j] == digits;
    assert MatchesAt(s, i, j);
    assert LeftmostMatch(s, i, j) by {
      forall i', j' | 0 <= i' < i ensures !MatchesAt(s, i', j') {
        assert s[i'] == prefix[i'];
      }
    }
  }

  /** A name whose first `@` starts `@<N>ms` yields `N`, whatever comes
      after the pattern: the value of the canonical spelling of `N`. */
  lemma FindsDecoratedValue(prefix: string, n: nat, suffix: string)
    requires forall k :: 0 <= k < |prefix| ==> prefix[k] != '@'
    ensures FindMsInFilename(prefix + "@" + Decimal(n) + "ms" + suffix) == n
  {
    FindsGroupAfterPrefix(prefix, Decimal(n), suffix);
  }

  /** Leading zeros in the digit group are dropped, as Python's `int()` does:
      `@007ms` gives 7 and `@0ms` gives 0. */
  lemma LeadingZerosInGroup(prefix: string, zeros: string, n: nat, suffix: string)
    requires forall k :: 0 <= k < |prefix| ==> prefix[k] != '@'
    requires forall k :: 0 <= k < |zeros| ==> zeros[k] == '0'
    ensures FindMsInFilename(prefix + "@" + zeros + Decimal(n) + "ms" + suffix) == n
  {
    var digits := zeros + Decimal(n);
    LeadingZerosDropped(zeros, Decimal(n));
    FindsGroupAfterPrefix(prefix, digits, suffix);
    assert prefix + "@" + digits + "ms" + suffix == prefix + "@" + zeros + Decimal(n) + "ms" + suffix;
  }

  /** A name with no `@` at all falls back to the default. */
  lemma NoAtSignGivesDefault(name: string)
    requires forall k :: 0 <= k < |name| ==> name[k] != '@'
    ensures FindMsInFilename(name) == DefaultMs
  {
    assert NoMatch(name);
  }

  /** Worked example: `clip@100ms.zip` plays at 100 ms per frame. */
  lemma ExampleDecorated()
    ensures FindMsInFilename("clip@100ms.zip") == 100
  {
    assert AllDigits("100");
    assert DigitsValue("100") == 100 by {
      assert "100"[..2] == "10" && "10"[..1] == "1" && "1"[..0] == "";
    }
    FindsGroupAfterPrefix("clip", "100", ".zip");
    assert "clip" + "@" + "100" + "ms" + ".zip" == "clip@100ms.zip";
  }

  /** Worked example: `@007ms` gives 7. */
  lemma ExampleLeadingZeros()
    ensures FindMsInFilename("@007ms") == 7
  {
    assert Decimal(7) == "7";
    LeadingZerosInGroup("", "00", 7, "");
    assert "" + "@" + "00" + Decimal(7) + "ms" + "" == "@007ms";
  }

  /** Worked example: `@0ms` gives 0, which is kept rather than replaced by the default. */
  lemma ExampleZero()
    ensures FindMsInFilename("@0ms") == 0
  {
    assert Decimal(0) == "0";
    FindsDecoratedValue("", 0, "");
    assert "" + "@" + Decimal(0) + "ms" + "" == "@0ms";
  }

  /** Worked example: `clip.zip` has no interval and gets the default. */
  lemma ExampleUndecorated()
    ensures FindMsInFilename("clip.zip") == DefaultMs
  {
    NoAtSignGivesDefault("clip.zip");
  }
}
