/**
 * A console feature (such as the EULA prompt) is triggered by a line the
 * game server prints on its console. The feature declares a list of listener
 * strings; a line triggers the feature when its lower-cased form contains at
 * least one of them. Listeners are used as given: they are not lower-cased.
 */
module ConsoleFeature {

  /** True for the ASCII capital letters. */
  predicate IsUpper(c: char) {
    'A' <= c <= 'Z'
  }

  /** ASCII lower-casing of one character. */
  function LowerChar(c: char): (r: char)
    ensures !IsUpper(r)
    ensures !IsUpper(c) ==> r == c
    ensures IsUpper(c) ==> 'a' <= r <= 'z' && r as int - c as int == 'a' as int - 'A' as int
  {
    if IsUpper(c) then (c as int - 'A' as int + 'a' as int) as char else c
  }

  /** Lower-casing of a whole string, character by character. */
  function Lower(s: string): (r: string)
    ensures |r| == |s|
    ensures forall i :: 0 <= i < |s| ==> r[i] == LowerChar(s[i])
  {
    seq(|s|, i requires 0 <= i < |s| => LowerChar(s[i]))
  }

  /** `n` occurs in `h` starting at position `i`. */
  predicate OccursAt(n: string, h: string, i: nat) {
    i + |n| <= |h| && h[i..i + |n|] == n
  }

  /** `n` is a substring of `h`: the reference definition of substring search. */
  ghost predicate IsInfix(n: string, h: string) {
    exists i: nat :: OccursAt(n, h, i)
  }

  /**
   * PHP's `str_contains`: a left-to-right scan for `n` in `h`.
   * Every string, the empty one included, contains the empty string.
   */
  function StrContains(h: string, n: string): bool
    decreases |h|
  {
    if |n| > |h| then false
    else if h[..|n|] == n then true
    else StrContains(h[1..], n)
  }

  /**
   * Laravel's `Str::contains` for a single needle: an empty needle never
   * matches; any other needle matches when it is a substring.
   */
  function Contains(h: string, n: string): bool {
    n != [] && StrContains(h, n)
  }

  /** `collect(listeners)->contains(...)`: does some listener match `h`? */
  function AnyListenerIn(listeners: seq<string>, h: string): bool {
    if listeners == [] then false
    else Contains(h, listeners[0]) || AnyListenerIn(listeners[1..], h)
  }

  /** `Feature::matchesListeners`: the line is lower-cased, the listeners are not. */
  function MatchesListeners(listeners: seq<string>, line: string): bool {
    AnyListenerIn(listeners, Lower(line))
  }

  /** Some listener that is not empty occurs in the lower-cased line. */
  ghost predicate SomeListenerOccurs(listeners: seq<string>, line: string) {
    exists k :: 0 <= k < |listeners| && listeners[k] != [] && IsInfix(listeners[k], Lower(line))
  }

  // ---------------------------------------------------------------------
  // Substring search

  /** The scan finds `n` exactly when `n` is a substring of `h`. */
  lemma {:induction false} StrContainsIsInfix(h: string, n: string)
    ensures StrContains(h, n) <==> IsInfix(n, h)
    decreases |h|
  {
    if |n| > |h| {
      forall i: nat ensures !OccursAt(n, h, i) {
      }
    } else if h[..|n|] == n {
      assert OccursAt(n, h, 0);
    } else {
      StrContainsIsInfix(h[1..], n);
      if StrContains(h[1..], n) {
        var i: nat :| OccursAt(n, h[1..], i);
        assert h[1..][i..i + |n|] == h[i + 1..i + 1 + |n|];
        assert OccursAt(n, h, i + 1);
      }
      if IsInfix(n, h) {
        var i: nat :| OccursAt(n, h, i);
        assert i != 0 by {
          assert h[..|n|] == h[0..|n|];
        }
        assert h[1..][i - 1..i - 1 + |n|] == h[i..i + |n|];
        assert OccursAt(n, h[1..], i - 1);
      }
    }
  }

  // ---------------------------------------------------------------------
  // Characterisation of matchesListeners

  /** A feature matches exactly when some non-empty listener is a substring of the lower-cased line. */
  lemma {:induction false} MatchesListenersIff(listeners: seq<string>, line: string)
    ensures MatchesListeners(listeners, line) <==> SomeListenerOccurs(listeners, line)
    decreases |listeners|
  {
    var h := Lower(line);
    if listeners != [] {
      MatchesListenersIff(listeners[1..], line);
      StrContainsIsInfix(h, listeners[0]);
      if SomeListenerOccurs(listeners, line) {
        var k :| 0 <= k < |listeners| && listeners[k] != [] && IsInfix(listeners[k], h);
        if k > 0 {
          assert listeners[1..][k - 1] == listeners[k];
        }
      }
      if SomeListenerOccurs(listeners[1..], line) {
        var k :| 0 <= k < |listeners[1..]| && listeners[1..][k] != [] && IsInfix(listeners[1..][k], h);
        assert listeners[k + 1] == listeners[1..][k];
      }
    }
  }

  /** With no listeners, no line ever triggers the feature. */
  lemma NoListenersNeverMatch(line: string)
    ensures !MatchesListeners([], line)
  {
  }

  /** An empty listener never triggers the feature, wherever it stands in the list. */
  lemma {:induction false} EmptyListenerIgnored(listeners: seq<string>, line: string)
    ensures MatchesListeners(listeners + [[]], line) == MatchesListeners(listeners, line)
  {
    var empty: seq<string> := [[]];
    assert empty[1..] == [];
    assert !Contains(Lower(line), empty[0]);
    assert !AnyListenerIn(empty[1..], Lower(line));
    assert !MatchesListeners(empty, line);
    MatchesListenersAppend(listeners, empty, line);
  }

  // ---------------------------------------------------------------------
  // Case-insensitivity of the line

  /** Lower-casing twice is lower-casing once. */
  lemma LowerIdempotent(s: string)
    ensures Lower(Lower(s)) == Lower(s)
  {
  }

  /**
   * The line matters only through its lower-cased form: two lines that
   * lower-case alike give the same answer, and lower-casing the line first
   * changes nothing.
   */
  lemma MatchesDependsOnlyOnLowerLine(listeners: seq<string>, line1: string, line2: string)
    ensures Lower(line1) == Lower(line2) ==>
              MatchesListeners(listeners, line1) == MatchesListeners(listeners, line2)
    ensures MatchesListeners(listeners, Lower(line1)) == MatchesListeners(listeners, line1)
  {
    LowerIdempotent(line1);
  }

  // ---------------------------------------------------------------------
  // The listener list: monotonicity and order

  /** Matching against two lists joined is matching against either. */
  lemma {:induction false} MatchesListenersAppend(ls1: seq<string>, ls2: seq<string>, line: string)
    ensures MatchesListeners(ls1 + ls2, line) == (MatchesListeners(ls1, line) || MatchesListeners(ls2, line))
    decreases |ls1|
  {
    if ls1 != [] {
      assert (ls1 + ls2)[0] == ls1[0];
      assert (ls1 + ls2)[1..] == ls1[1..] + ls2;
      MatchesListenersAppend(ls1[1..], ls2, line);
    } else {
      assert ls1 + ls2 == ls2;
    }
  }

  /** Adding listeners, before or after the existing ones, never turns a match into a miss. */
  lemma MatchesMonotone(listeners: seq<string>, extra: seq<string>, line: string)
    ensures MatchesListeners(listeners, line) ==> MatchesListeners(listeners + extra, line)
    ensures MatchesListeners(listeners, line) ==> MatchesListeners(extra + listeners, line)
  {
    MatchesListenersAppend(listeners, extra, line);
    MatchesListenersAppend(extra, listeners, line);
  }

  /** Only which listeners are present matters: their order and repetitions do not affect the result. */
  lemma MatchesIgnoresOrder(ls1: seq<string>, ls2: seq<string>, line: string)
    requires forall l :: l in ls1 <==> l in ls2
    ensures MatchesListeners(ls1, line) == MatchesListeners(ls2, line)
  {
    MatchesListenersIff(ls1, line);
    MatchesListenersIff(ls2, line);
    SomeListenerOccursTransfers(ls1, ls2, line);
    SomeListenerOccursTransfers(ls2, ls1, line);
  }

  /** An occurring listener of `ls1` is also a listener of `ls2` when `ls2` holds every element of `ls1`. */
  lemma SomeListenerOccursTransfers(ls1: seq<string>, ls2: seq<string>, line: string)
    requires forall l :: l in ls1 ==> l in ls2
    ensures SomeListenerOccurs(ls1, line) ==> SomeListenerOccurs(ls2, line)
  {
    if SomeListenerOccurs(ls1, line) {
      var k :| 0 <= k < |ls1| && ls1[k] != [] && IsInfix(ls1[k], Lower(line));
      assert ls1[k] in ls2;
      var j :| 0 <= j < |ls2| && ls2[j] == ls1[k];
    }
  }

  // ---------------------------------------------------------------------
  // Listeners are not lower-cased

  /** A listener holding a capital letter is never a substring of any lower-cased line. */
  lemma UppercaseListenerNeverContained(listener: string, line: string, j: nat)
    requires j < |listener| && IsUpper(listener[j])
    ensures !Contains(Lower(line), listener)
  {
    var h := Lower(line);
    StrContainsIsInfix(h, listener);
    forall i: nat ensures !OccursAt(listener, h, i) {
      if i + |listener| <= |h| {
        assert h[i..i + |listener|][j] == h[i + j];
        assert !IsUpper(h[i + j]);
      }
    }
  }

  /** So adding such a listener to a feature never changes which lines trigger it. */
  lemma UppercaseListenerIsDead(listeners: seq<string>, listener: string, line: string, j: nat)
    requires j < |listener| && IsUpper(listener[j])
    ensures MatchesListeners(listeners + [listener], line) == MatchesListeners(listeners, line)
    ensures !MatchesListeners([listener], line)
  {
    UppercaseListenerNeverContained(listener, line, j);
    var single := [listener];
    assert !AnyListenerIn(single[1..], Lower(line));
    assert !MatchesListeners(single, line);
    MatchesListenersAppend(listeners, single, line);
  }

  // ---------------------------------------------------------------------
  // The EULA feature from the doc-comment

  // The prompt and the listener are spelled out in the pieces where their
  // capitals differ, so that lower-casing can be followed piece by piece.
  const AgreePart: string := "ou need to agree to the "
  const RunPart: string := " in order to run the server"

  /** The doc-comment's listener: "you need to agree to the eula in order to run the server". */
  const EulaListener: string := "y" + AgreePart + "eula" + RunPart

  /** The prompt as the server prints it: "You need to agree to the EULA in order to run the server." */
  const EulaPrompt: string := "Y" + AgreePart + "EULA" + RunPart + "."

  /** A line that contains a non-empty listener verbatim, after lower-casing, triggers the feature. */
  lemma ContainedListenerMatches(listeners: seq<string>, k: nat, line: string, i: nat)
    requires k < |listeners| && listeners[k] != []
    requires OccursAt(listeners[k], Lower(line), i)
    ensures MatchesListeners(listeners, line)
  {
    MatchesListenersIff(listeners, line);
  }

  /** The server's EULA prompt, printed with capitals, triggers the EULA feature. */
  lemma EulaPromptMatches()
    ensures MatchesListeners([EulaListener], EulaPrompt)
  {
    EulaPromptLowered();
    assert (EulaListener + ".")[0..|EulaListener|] == EulaListener;
    ContainedListenerMatches([EulaListener], 0, EulaPrompt, 0);
  }

  /** An unrelated console line does not trigger it, and neither would the listener written with capitals. */
  lemma EulaOtherLinesDoNotMatch()
    ensures !MatchesListeners([EulaListener], "Done (3.2s)! For help, type \"help\"")
    ensures !MatchesListeners(["Y" + AgreePart + "EULA"], EulaPrompt)
  {
    var line := "Done (3.2s)! For help, type \"help\"";
    assert |Lower(line)| < |EulaListener|;
    assert !Contains(Lower(line), EulaListener);
    var single := [EulaListener];
    assert !AnyListenerIn(single[1..], Lower(line));
    UppercaseListenerIsDead([], "Y" + AgreePart + "EULA", EulaPrompt, 0);
  }

  /** Lower-casing works piece by piece. */
  lemma LowerAppend(a: string, b: string)
    ensures Lower(a + b) == Lower(a) + Lower(b)
  {
  }

  /** A string without capitals is its own lower-case form. */
  lemma LowerWithoutCapitals(s: string)
    requires forall i :: 0 <= i < |s| ==> !IsUpper(s[i])
    ensures Lower(s) == s
  {
  }

  /** The lower-cased prompt is the listener followed by the full stop. */
  lemma EulaPromptLowered()
    ensures Lower(EulaPrompt) == EulaListener + "."
  {
    LowerWithoutCapitals(AgreePart);
    LowerWithoutCapitals(RunPart);
    assert Lower("Y") == "y";
    assert Lower("EULA") == "eula";
    LowerAppend("Y" + AgreePart + "EULA" + RunPart, ".");
    LowerAppend("Y" + AgreePart + "EULA", RunPart);
    LowerAppend("Y" + AgreePart, "EULA");
    LowerAppend("Y", AgreePart);
  }
}
