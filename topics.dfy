/**
 * Topic validation before a PUBLISH or SUBSCRIBE is built
 * (MQTT 3.1.1, sections 1.5.3, 4.7.1 and 4.7.3).
 *
 * The client checks the UTF-8 size and then runs `find()` of a
 * `java.util.regex.Pattern`. Each pattern is modelled by the condition under
 * which it matches: `^` anchors at index 0, and `$` (no MULTILINE flag) matches
 * at the end of the input or just before one final line terminator.
 */
module Topics {
  import Utf8

  /** MIN_TOPIC_LEN and MAX_TOPIC_LEN, in UTF-8 octets. */
  const MinTopicLength: int := 1
  const MaxTopicLength: int := 65535

  /** `isValidStringSizeInUTF8`: the UTF-8 encoding has between 1 and 65535 octets. */
  function IsValidStringSizeInUtf8(s: string): (ok: bool)
    ensures ok <==> MinTopicLength <= Utf8.Length(s) <= MaxTopicLength
    ensures ok ==> 1 <= |s| <= MaxTopicLength
    ensures 1 <= |s| && 4 * |s| <= MaxTopicLength ==> ok
  {
    Utf8.LengthBounds(s);
    var length := |Utf8.Encode(s)|;
    MinTopicLength <= length && length <= MaxTopicLength
  }

  /** For an ASCII topic the octet limit is a character limit. */
  lemma AsciiSizeValid(s: string)
    requires forall i | 0 <= i < |s| :: s[i] as int < 0x80
    ensures IsValidStringSizeInUtf8(s) <==> 1 <= |s| <= MaxTopicLength
  {
    Utf8.LengthOfAscii(s);
  }

  // ---------------------------------------------------------------------------
  // Java's `$`

  /** The characters java.util.regex treats as line terminators when UNIX_LINES is off. */
  predicate IsLineTerminator(c: char) {
    c == '\n' || c == '\r' || c == '\U{85}' || c == '\U{2028}' || c == '\U{2029}'
  }

  /**
   * `$` without MULTILINE succeeds at index `p` of `s`: at the end, before a
   * final "\r\n", or before a final line terminator that is not the '\n' of a
   * "\r\n".
   */
  predicate DollarMatchesAt(s: string, p: int) {
    0 <= p <= |s| &&
    (|| p == |s|
     || (p == |s| - 2 && s[p] == '\r' && s[p + 1] == '\n')
     || (p == |s| - 1 && IsLineTerminator(s[p]) && !(s[p] == '\n' && p > 0 && s[p - 1] == '\r')))
  }

  /** Where `$` matches, only line-terminator characters follow. */
  lemma DollarLeavesTerminators(s: string, p: int)
    requires DollarMatchesAt(s, p)
    ensures forall i | p <= i < |s| :: IsLineTerminator(s[i])
  {
  }

  // ---------------------------------------------------------------------------
  // Topic names: pattern `^[^#+\u0000]+$`

  /** The characters the class `[^#+\u0000]` leaves out. */
  predicate IsNameExcluded(c: char) {
    c == '#' || c == '+' || c == '\0'
  }

  /** `find()` of `^[^#+\u0000]+$` succeeds on `t`. */
  predicate NamePatternFinds(t: string) {
    exists p | 1 <= p <= |t| ::
      DollarMatchesAt(t, p) && forall i | 0 <= i < p :: !IsNameExcluded(t[i])
  }

  /** The trailing-terminator case of `$` changes nothing for topic names. */
  lemma NamePatternFindsExactly(t: string)
    ensures NamePatternFinds(t) <==> |t| >= 1 && forall i | 0 <= i < |t| :: !IsNameExcluded(t[i])
  {
    if NamePatternFinds(t) {
      var p :| 1 <= p <= |t| && DollarMatchesAt(t, p) && forall i | 0 <= i < p :: !IsNameExcluded(t[i]);
      DollarLeavesTerminators(t, p);
    }
    if |t| >= 1 && forall i | 0 <= i < |t| :: !IsNameExcluded(t[i]) {
      assert DollarMatchesAt(t, |t|);
    }
  }

  /** `isValidTopicName` (section 4.7.3): 1 to 65535 octets, no wildcard, no U+0000. */
  function IsValidTopicName(t: string): (ok: bool)
    ensures ok <==> MinTopicLength <= Utf8.Length(t) <= MaxTopicLength
                    && '#' !in t && '+' !in t && '\0' !in t
  {
    NamePatternFindsExactly(t);
    assert (forall i | 0 <= i < |t| :: !IsNameExcluded(t[i])) <==> ('#' !in t && '+' !in t && '\0' !in t);
    IsValidStringSizeInUtf8(t) && NamePatternFinds(t)
  }

  // ---------------------------------------------------------------------------
  // Topic filters: pattern `^(#|((\+(?![^/]))?([^#+]*(/\+(?![^/]))?)*(/#)?))$`

  /**
   * A '+' at index `i` occupies a whole level: it is at the start or after a '/',
   * and (the lookahead `(?![^/])`) at the end of the input or before a '/'.
   */
  predicate PlusStandsAlone(s: string, i: int)
    requires 0 <= i < |s|
  {
    StartsLevel(s, i) && (i + 1 == |s| || s[i + 1] == '/')
  }

  /** Index `i` is the first of a topic level: the start of `s` or just after a '/'. */
  predicate StartsLevel(s: string, i: int)
    requires 0 <= i <= |s|
  {
    i == 0 || s[i - 1] == '/'
  }

  /**
   * The body of the filter pattern, anchored at 0, matches `s[..p]` while its
   * lookaheads see the whole of `s`. In that body '+' occurs only as the
   * optional leading `\+` or in `/\+`, both under the lookahead, and '#' only as
   * the whole alternative `#` or the closing `/#`; every other character is
   * taken by `[^#+]*`.
   */
  predicate FilterBodyMatches(s: string, p: int)
    requires 0 <= p <= |s|
  {
    forall i | 0 <= i < p ::
      && (s[i] == '+' ==> PlusStandsAlone(s, i))
      && (s[i] == '#' ==> i == p - 1 && StartsLevel(s, i))
  }

  /** `find()` of the filter pattern succeeds on `f`. */
  predicate FilterPatternFinds(f: string) {
    exists p | 0 <= p <= |f| :: DollarMatchesAt(f, p) && FilterBodyMatches(f, p)
  }

  /** The wildcard rules of sections 4.7.1.2 and 4.7.1.3, character by character. */
  predicate WildcardsWellPlaced(s: string) {
    FilterBodyMatches(s, |s|)
  }

  // ---------------------------------------------------------------------------
  // Topic levels (section 4.7.1.1)

  /** The index of the first '/'. */
  function SlashIndex(s: string): (k: nat)
    requires '/' in s
    ensures k < |s| && s[k] == '/' && '/' !in s[..k]
  {
    if s[0] == '/' then 0
    else
      var k := 1 + SlashIndex(s[1..]);
      assert s[..k] == [s[0]] + s[1..][..k - 1];
      k
  }

  /** The levels joined back together, with a '/' between neighbours. */
  function Join(levels: seq<string>): string
    requires |levels| >= 1
  {
    if |levels| == 1 then levels[0] else levels[0] + "/" + Join(levels[1..])
  }

  /** The levels of a topic: `s` split at every '/' ("a/" has the levels "a" and ""). */
  function Levels(s: string): (levels: seq<string>)
    ensures |levels| >= 1
    ensures forall k | 0 <= k < |levels| :: '/' !in levels[k]
    ensures Join(levels) == s
    decreases |s|
  {
    if '/' !in s then [s]
    else
      var k := SlashIndex(s);
      var rest := Levels(s[k + 1..]);
      assert ([s[..k]] + rest)[1..] == rest;
      assert s == s[..k] + "/" + s[k + 1..];
      [s[..k]] + rest
  }

  /** A level of a filter: "+", "#" if it is the last one, or free of wildcards. */
  predicate LevelOk(level: string, isLast: bool) {
    level == "+" || (isLast && level == "#") || ('#' !in level && '+' !in level)
  }

  /** Every level of `s` is acceptable in a topic filter. */
  predicate LevelsValid(s: string) {
    var levels := Levels(s);
    forall k | 0 <= k < |levels| :: LevelOk(levels[k], k == |levels| - 1)
  }

  lemma SingleLevelWellPlaced(x: string)
    requires '/' !in x
    ensures WildcardsWellPlaced(x) <==> LevelOk(x, true)
  {
    if WildcardsWellPlaced(x) && !('#' !in x && '+' !in x) {
      var i :| 0 <= i < |x| && (x[i] == '#' || x[i] == '+');
      assert x[i] == '+' ==> PlusStandsAlone(x, i);
      var before, after := if i > 0 then i - 1 else i, if i + 1 < |x| then i + 1 else i;
      assert x[before] != '/' && x[after] != '/';
      assert i == 0 && |x| == 1;
      assert x == [x[0]];
    }
  }

  lemma SplitLevelWellPlaced(x: string, y: string)
    requires '/' !in x
    ensures WildcardsWellPlaced(x + "/" + y) <==> LevelOk(x, false) && WildcardsWellPlaced(y)
  {
    if WildcardsWellPlaced(x + "/" + y) {
      FirstLevelOfWellPlaced(x, y);
      RestOfWellPlaced(x, y);
    }
    if LevelOk(x, false) && WildcardsWellPlaced(y) {
      JoinWellPlaced(x, y);
    }
  }

  lemma FirstLevelOfWellPlaced(x: string, y: string)
    requires '/' !in x && WildcardsWellPlaced(x + "/" + y)
    ensures LevelOk(x, false)
  {
    var s, m := x + "/" + y, |x|;
    if !('#' !in x && '+' !in x) {
      var i :| 0 <= i < m && (x[i] == '#' || x[i] == '+');
      assert s[i] == x[i];
      assert s[i] == '+' ==> PlusStandsAlone(s, i);
      assert s[i] == '#' ==> i == |s| - 1;
      var before, after := if i > 0 then i - 1 else i, if i + 1 < m then i + 1 else i;
      assert x[before] != '/' && x[after] != '/';
      assert s[before] == x[before] && s[after] == x[after];
      assert s[m] == '/';
      assert i == 0 && m == 1;
      assert x == [x[0]];
    }
  }

  lemma RestOfWellPlaced(x: string, y: string)
    requires WildcardsWellPlaced(x + "/" + y)
    ensures WildcardsWellPlaced(y)
  {
    var s, m := x + "/" + y, |x|;
    assert s[m] == '/';
    forall j | 0 <= j < |y|
      ensures (y[j] == '+' ==> PlusStandsAlone(y, j))
      ensures (y[j] == '#' ==> j == |y| - 1 && StartsLevel(y, j))
    {
      assert s[m + 1 + j] == y[j];
      assert j > 0 ==> s[m + j] == y[j - 1];
      assert j + 1 < |y| ==> s[m + 2 + j] == y[j + 1];
    }
  }

  lemma JoinWellPlaced(x: string, y: string)
    requires '/' !in x && LevelOk(x, false) && WildcardsWellPlaced(y)
    ensures WildcardsWellPlaced(x + "/" + y)
  {
    var s, m := x + "/" + y, |x|;
    assert s[m] == '/';
    forall i | 0 <= i < |s|
      ensures s[i] == '+' ==> PlusStandsAlone(s, i)
      ensures s[i] == '#' ==> i == |s| - 1 && StartsLevel(s, i)
    {
      if i < m {
        assert s[i] == x[i];
        if s[i] == '+' {
          assert x == "+";
          assert i == 0 && s[i + 1] == '/';
        }
      } else if i > m {
        var j := i - m - 1;
        assert s[i] == y[j];
        assert j > 0 ==> s[i - 1] == y[j - 1];
        assert j == 0 ==> s[i - 1] == '/';
        assert j + 1 < |y| ==> s[i + 1] == y[j + 1];
        assert j + 1 == |y| <==> i + 1 == |s|;
      }
    }
  }

  /** The character-level rules and the level rules accept the same filters. */
  lemma {:induction false} WellPlacedIffLevelsValid(s: string)
    ensures WildcardsWellPlaced(s) <==> LevelsValid(s)
    decreases |s|
  {
    if '/' !in s {
      SingleLevelWellPlaced(s);
      assert Levels(s) == [s];
      assert Levels(s)[0] == s;
    } else {
      var k := SlashIndex(s);
      var x, y := s[..k], s[k + 1..];
      assert s == x + "/" + y;
      SplitLevelWellPlaced(x, y);
      WellPlacedIffLevelsValid(y);
      var levels, rest := Levels(s), Levels(y);
      assert levels == [x] + rest;
      assert forall j | 0 <= j < |rest| :: levels[j + 1] == rest[j];
      if LevelsValid(s) {
        assert LevelOk(levels[0], false);
        forall j | 0 <= j < |rest| ensures LevelOk(rest[j], j == |rest| - 1) {
          assert LevelOk(levels[j + 1], j + 1 == |levels| - 1);
        }
      }
      if LevelOk(x, false) && LevelsValid(y) {
        forall j | 0 <= j < |levels| ensures LevelOk(levels[j], j == |levels| - 1) {
          if j > 0 {
            assert levels[j] == rest[j - 1];
          }
        }
      }
    }
  }

  // ---------------------------------------------------------------------------
  // What the filter pattern accepts

  /**
   * The filter pattern also accepts a valid filter whose last level is "#"
   * followed by one final line terminator ("a/#\n", "#\r\n"), because `$`
   * matches before it and no lookahead is involved.
   */
  predicate HashBeforeFinalTerminator(f: string) {
    exists p | 0 < p < |f| :: DollarMatchesAt(f, p) && f[p - 1] == '#' && LevelsValid(f[..p])
  }

  lemma BodyBeforeTerminator(f: string, p: int)
    requires 0 <= p < |f| && DollarMatchesAt(f, p)
    ensures FilterBodyMatches(f, p) <==> WildcardsWellPlaced(f[..p]) && (p == 0 || f[p - 1] != '+')
  {
    var u := f[..p];
    assert |u| == p;
    assert f[p] != '/';
    assert p > 0 ==> !PlusStandsAlone(f, p - 1) && PlusStandsAlone(u, p - 1) == (p == 1 || u[p - 2] == '/');
    if FilterBodyMatches(f, p) {
      forall i | 0 <= i < p
        ensures u[i] == '+' ==> PlusStandsAlone(u, i)
        ensures u[i] == '#' ==> i == p - 1 && StartsLevel(u, i)
      {
        assert u[i] == f[i];
        assert f[i] == '+' ==> PlusStandsAlone(f, i);
        assert f[i] == '#' ==> i == p - 1 && StartsLevel(f, i);
        assert i > 0 ==> u[i - 1] == f[i - 1];
        assert i + 1 < p ==> u[i + 1] == f[i + 1];
      }
    }
    if WildcardsWellPlaced(u) && (p == 0 || f[p - 1] != '+') {
      forall i | 0 <= i < p
        ensures f[i] == '+' ==> PlusStandsAlone(f, i)
        ensures f[i] == '#' ==> i == p - 1 && StartsLevel(f, i)
      {
        assert u[i] == f[i];
        assert u[i] == '+' ==> PlusStandsAlone(u, i);
        assert u[i] == '#' ==> i == p - 1 && StartsLevel(u, i);
        assert i > 0 ==> u[i - 1] == f[i - 1];
        assert i + 1 < p ==> u[i + 1] == f[i + 1];
      }
    }
  }

  lemma TerminatorsExtendFilter(f: string, p: int)
    requires 0 <= p < |f| && DollarMatchesAt(f, p)
    requires WildcardsWellPlaced(f[..p]) && (p == 0 || (f[p - 1] != '+' && f[p - 1] != '#'))
    ensures WildcardsWellPlaced(f)
  {
    var u := f[..p];
    assert |u| == p;
    DollarLeavesTerminators(f, p);
    forall i | 0 <= i < |f|
      ensures f[i] == '+' ==> PlusStandsAlone(f, i)
      ensures f[i] == '#' ==> i == |f| - 1 && StartsLevel(f, i)
    {
      if i < p {
        assert f[i] == u[i];
        assert i > 0 ==> u[i - 1] == f[i - 1];
        assert i + 1 < p ==> u[i + 1] == f[i + 1];
        assert u[i] == '+' ==> PlusStandsAlone(u, i);
        assert u[i] == '#' ==> i == p - 1;
        assert f[i] != '#';
        assert f[i] == '+' ==> i + 1 < p;
      }
    }
  }

  /** Exactly which strings `find()` of the filter pattern accepts. */
  lemma FilterPatternFindsExactly(f: string)
    ensures FilterPatternFinds(f) <==> LevelsValid(f) || HashBeforeFinalTerminator(f)
  {
    WellPlacedIffLevelsValid(f);
    if FilterPatternFinds(f) {
      var p :| 0 <= p <= |f| && DollarMatchesAt(f, p) && FilterBodyMatches(f, p);
      if p < |f| {
        BodyBeforeTerminator(f, p);
        if p > 0 && f[p - 1] == '#' {
          WellPlacedIffLevelsValid(f[..p]);
          assert HashBeforeFinalTerminator(f);
        } else {
          TerminatorsExtendFilter(f, p);
        }
      }
    }
    if LevelsValid(f) {
      assert DollarMatchesAt(f, |f|);
    }
    if HashBeforeFinalTerminator(f) {
      var p :| 0 < p < |f| && DollarMatchesAt(f, p) && f[p - 1] == '#' && LevelsValid(f[..p]);
      WellPlacedIffLevelsValid(f[..p]);
      BodyBeforeTerminator(f, p);
    }
  }

  /** What the pattern accepts beyond the level rules is outside section 4.7.1. */
  lemma HashBeforeTerminatorBreaksLevels(f: string)
    requires HashBeforeFinalTerminator(f)
    ensures !LevelsValid(f)
  {
    var p :| 0 < p < |f| && DollarMatchesAt(f, p) && f[p - 1] == '#' && LevelsValid(f[..p]);
    WellPlacedIffLevelsValid(f);
    assert 0 <= p - 1 < |f| && f[p - 1] == '#' && p - 1 != |f| - 1;
  }

  /**
   * A filter whose last level is "#" is still accepted with a "\n" appended,
   * although its last level is then "#\n", which the level rules reject.
   */
  lemma HashFilterAcceptsFinalNewline(f: string)
    requires LevelsValid(f) && |f| > 0 && f[|f| - 1] == '#'
    requires Utf8.Length(f) < MaxTopicLength
    ensures IsValidTopicFilter(f + "\n")
    ensures !LevelsValid(f + "\n")
  {
    var s := f + "\n";
    assert s[..|f|] == f;
    assert DollarMatchesAt(s, |f|);
    assert HashBeforeFinalTerminator(s);
    Utf8.LengthAppend(f, "\n");
    assert Utf8.Length("\n") == 1;
    HashBeforeTerminatorBreaksLevels(s);
  }

  /** The same does not hold for a final "+": the lookahead sees the "\n". */
  lemma PlusFilterRejectsFinalNewline(f: string)
    requires |f| > 0 && f[|f| - 1] == '+'
    ensures !IsValidTopicFilter(f + "\n")
  {
    var s := f + "\n";
    assert s[|f| - 1] == '+' && s[|f|] == '\n';
    assert !PlusStandsAlone(s, |f| - 1);
    WellPlacedIffLevelsValid(s);
  }

  /**
   * `isValidTopicFilter`: 1 to 65535 octets, and every level is "+", a final
   * "#" or free of wildcards; or such a filter ending in "#" followed by one
   * final line terminator. U+0000 is not checked.
   */
  function IsValidTopicFilter(f: string): (ok: bool)
    ensures ok <==> IsValidStringSizeInUtf8(f) && (LevelsValid(f) || HashBeforeFinalTerminator(f))
  {
    FilterPatternFindsExactly(f);
    IsValidStringSizeInUtf8(f) && FilterPatternFinds(f)
  }

  /**
   * The entries of a subscription request whose filter is rejected, in their
   * original order (the `filter` stream of `subscribe`).
   */
  function InvalidFilters(topics: seq<(string, int)>): (invalid: seq<(string, int)>)
    ensures |invalid| <= |topics|
  {
    if topics == [] then []
    else
      var rest := InvalidFilters(topics[1..]);
      if IsValidTopicFilter(topics[0].0) then rest else [topics[0]] + rest
  }

  /** The rejected entries are exactly the entries whose filter is invalid. */
  lemma {:induction false} InvalidFiltersMembers(topics: seq<(string, int)>)
    ensures forall e | e in InvalidFilters(topics) :: e in topics && !IsValidTopicFilter(e.0)
    ensures forall e | e in topics && !IsValidTopicFilter(e.0) :: e in InvalidFilters(topics)
  {
    if topics != [] {
      InvalidFiltersMembers(topics[1..]);
      assert topics == [topics[0]] + topics[1..];
    }
  }

  /** The request is rejected exactly when some filter in it is invalid. */
  lemma InvalidFiltersEmpty(topics: seq<(string, int)>)
    ensures InvalidFilters(topics) == [] <==> forall k | 0 <= k < |topics| :: IsValidTopicFilter(topics[k].0)
  {
    InvalidFiltersMembers(topics);
    if InvalidFilters(topics) != [] {
      assert InvalidFilters(topics)[0] in InvalidFilters(topics);
    }
    if exists k | 0 <= k < |topics| :: !IsValidTopicFilter(topics[k].0) {
      var k :| 0 <= k < |topics| && !IsValidTopicFilter(topics[k].0);
      assert topics[k] in topics;
    }
  }

}
