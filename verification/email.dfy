/**
 The contact form's e-mail check, the regular expression
 /^[^\s@]+@[^\s@]+\.[^\s@]+$/ applied with RegExp.prototype.test.

 MatchesPattern follows the expression's structure: three non-empty runs of
 the class [^\s@] separated by '@' and by a literal '.'. WellFormed says the
 same in readable terms, and PatternIsWellFormed proves the two agree on every
 string. Test is a single left-to-right scan (the expression's automaton)
 proved to decide the pattern.
 */
module Email {
  import opened Js

  /** One character of the class [^\s@]. */
  predicate IsAtom(c: char) {
    !IsWs(c) && c != '@'
  }

  /** A run of [^\s@] characters (possibly empty; callers state non-emptiness). */
  predicate Atoms(t: string) {
    forall i :: 0 <= i < |t| ==> IsAtom(t[i])
  }

  /**
   ^[^\s@]+@[^\s@]+\.[^\s@]+$ : the '@' sits at `at` and the literal '.' at
   `dot`, and the three runs around them are non-empty and free of white space
   and '@'. The anchors make the runs cover the whole string.
   */
  predicate MatchesPattern(s: string) {
    exists at, dot | 0 < at < |s| && at + 1 < dot < |s| - 1 ::
      && s[at] == '@'
      && s[dot] == '.'
      && Atoms(s[..at])
      && Atoms(s[at + 1..dot])
      && Atoms(s[dot + 1..])
  }

  /** Lower-case ASCII letters belong to [^\s@]. */
  lemma LowercaseAtoms(t: string)
    requires forall i :: 0 <= i < |t| ==> 'a' <= t[i] <= 'z'
    ensures Atoms(t)
  {
  }

  /** Number of occurrences of `c` in `s`. */
  function Count(s: string, c: char): nat {
    if s == [] then 0 else (if s[0] == c then 1 else 0) + Count(s[1..], c)
  }

  predicate NoWhitespace(s: string) {
    forall i :: 0 <= i < |s| ==> !IsWs(s[i])
  }

  /** The domain has a '.' that is neither its first nor its last character. */
  predicate HasInnerDot(domain: string) {
    exists k :: 0 < k < |domain| - 1 && domain[k] == '.'
  }

  /**
   The readable description of an address the form accepts: no white space
   anywhere, exactly one '@', something before it, and a domain after it
   with a '.' strictly inside.
   */
  predicate WellFormed(s: string) {
    && NoWhitespace(s)
    && Count(s, '@') == 1
    && var at := IndexOf(s, "@");
       0 < at && HasInnerDot(s[at + 1..])
  }

  lemma {:induction false} CountAppend(a: string, b: string, c: char)
    ensures Count(a + b, c) == Count(a, c) + Count(b, c)
  {
    if a != [] {
      assert (a + b)[0] == a[0] && (a + b)[1..] == a[1..] + b;
      CountAppend(a[1..], b, c);
    } else {
      assert a + b == b;
    }
  }

  lemma {:induction false} CountZero(s: string, c: char)
    ensures Count(s, c) == 0 <==> forall i :: 0 <= i < |s| ==> s[i] != c
  {
    if s != [] {
      CountZero(s[1..], c);
      assert forall i :: 1 <= i < |s| ==> s[i] == s[1..][i - 1];
    }
  }

  /** `s` cut around position `k`. */
  lemma CountAround(s: string, c: char, k: int)
    requires 0 <= k < |s|
    ensures Count(s, c) == Count(s[..k], c) + (if s[k] == c then 1 else 0) + Count(s[k + 1..], c)
  {
    assert s == s[..k] + ([s[k]] + s[k + 1..]);
    CountAppend(s[..k], [s[k]] + s[k + 1..], c);
    assert ([s[k]] + s[k + 1..])[1..] == s[k + 1..];
  }

  /** A character that occurs exactly at `k` occurs once. */
  lemma CountOnly(s: string, c: char, k: int)
    requires 0 <= k < |s| && s[k] == c
    requires forall j :: 0 <= j < |s| && j != k ==> s[j] != c
    ensures Count(s, c) == 1
  {
    CountAround(s, c, k);
    CountZero(s[..k], c);
    CountZero(s[k + 1..], c);
    assert forall j :: 0 <= j < k ==> s[..k][j] == s[j];
    assert forall j :: k < j < |s| ==> s[k + 1..][j - k - 1] == s[j];
  }

  /** A character that occurs at two positions occurs at least twice. */
  lemma CountTwo(s: string, c: char, a: int, b: int)
    requires 0 <= a < b < |s| && s[a] == c && s[b] == c
    ensures Count(s, c) >= 2
  {
    CountAround(s, c, b);
    CountZero(s[..b], c);
    assert s[..b][a] == c;
  }

  /** A character that occurs exactly at `k` and never before is found there by indexOf. */
  lemma IndexOfChar(s: string, c: char, k: int)
    requires 0 <= k < |s| && s[k] == c
    requires forall j :: 0 <= j < k ==> s[j] != c
    ensures IndexOf(s, [c]) == k
  {
    var r := IndexOf(s, [c]);
    assert OccursAt(s, [c], k);
    assert s[r..r + 1][0] == s[r];
  }

  /** The only '@' of `s` is at `at`, and there is no white space: WellFormed reduces to the two positional conditions. */
  lemma WellFormedAt(s: string, at: int)
    requires 0 <= at < |s| && s[at] == '@'
    requires forall j :: 0 <= j < |s| && j != at ==> s[j] != '@'
    requires NoWhitespace(s)
    ensures IndexOf(s, "@") == at
    ensures WellFormed(s) <==> 0 < at && exists k :: at + 1 < k < |s| - 1 && s[k] == '.'
  {
    CountOnly(s, '@', at);
    IndexOfChar(s, '@', at);
    var d := s[at + 1..];
    if HasInnerDot(d) {
      var k :| 0 < k < |d| - 1 && d[k] == '.';
      assert s[at + 1 + k] == '.';
    }
    if exists k :: at + 1 < k < |s| - 1 && s[k] == '.' {
      var k :| at + 1 < k < |s| - 1 && s[k] == '.';
      assert d[k - at - 1] == '.';
    }
  }

  lemma FromPattern(s: string, at: int, dot: int)
    requires 0 < at < |s| && at + 1 < dot < |s| - 1
    requires s[at] == '@' && s[dot] == '.'
    requires Atoms(s[..at]) && Atoms(s[at + 1..dot]) && Atoms(s[dot + 1..])
    ensures WellFormed(s)
  {
    forall j | 0 <= j < |s| && j != at && j != dot
      ensures IsAtom(s[j])
    {
      if j < at {
        assert s[..at][j] == s[j];
      } else if j < dot {
        assert s[at + 1..dot][j - at - 1] == s[j];
      } else {
        assert s[dot + 1..][j - dot - 1] == s[j];
      }
    }
    WellFormedAt(s, at);
  }

  lemma ToPattern(s: string, dot: int)
    requires WellFormed(s)
    requires IndexOf(s, "@") + 1 < dot < |s| - 1 && s[dot] == '.'
    ensures MatchesPattern(s)
  {
    var at := IndexOf(s, "@");
    assert OccursAt(s, "@", at) && s[at..at + 1][0] == s[at];
    forall j | 0 <= j < at
      ensures s[j] != '@'
    {
      if s[j] == '@' {
        assert s[j..j + 1] == "@";
        assert OccursAt(s, "@", j);
      }
    }
    forall j | at < j < |s|
      ensures s[j] != '@'
    {
      if s[j] == '@' {
        CountTwo(s, '@', at, j);
      }
    }
    assert Atoms(s[..at]);
    assert Atoms(s[at + 1..dot]);
    assert Atoms(s[dot + 1..]);
  }

  /** The regular expression and the readable description accept the same strings. */
  lemma PatternIsWellFormed(s: string)
    ensures MatchesPattern(s) <==> WellFormed(s)
  {
    if MatchesPattern(s) {
      var at, dot :|
        && 0 < at < |s| && at + 1 < dot < |s| - 1
        && s[at] == '@' && s[dot] == '.'
        && Atoms(s[..at]) && Atoms(s[at + 1..dot]) && Atoms(s[dot + 1..]);
      FromPattern(s, at, dot);
    }
    if WellFormed(s) {
      var at := IndexOf(s, "@");
      var k :| 0 < k < |s[at + 1..]| - 1 && s[at + 1..][k] == '.';
      ToPattern(s, at + 1 + k);
    }
  }

  /** States of the scan; each one names what the consumed prefix has matched so far. */
  datatype Scan =
    | Start      // nothing read
    | Local      // a non-empty local part, no '@' yet
    | AfterAt    // the '@' was the last character
    | Domain     // domain characters after the '@', no usable '.' yet
    | DomainDot  // the last character is a '.' preceded by domain characters
    | Accept     // a '.' with domain characters on both sides has been seen

  /** emailRegex.test(email), as one left-to-right pass that rejects on the first impossible character. */
  method Test(s: string) returns (ok: bool)
    ensures ok <==> MatchesPattern(s)
    ensures ok <==> WellFormed(s)
  {
    var st := Start;
    var at := 0;
    var i := 0;
    while i < |s|
      invariant 0 <= i <= |s|
      invariant forall j :: 0 <= j < i ==> !IsWs(s[j])
      invariant st == Start <==> i == 0
      invariant st == Local ==> forall j :: 0 <= j < i ==> s[j] != '@'
      invariant st != Start && st != Local ==>
                  && 0 < at < i && s[at] == '@'
                  && forall j :: 0 <= j < i && j != at ==> s[j] != '@'
      invariant st == AfterAt ==> i == at + 1
      invariant st == Domain ==> at + 1 < i && forall j :: at + 1 < j < i ==> s[j] != '.'
      invariant st == DomainDot ==>
                  && at + 2 < i && s[i - 1] == '.'
                  && forall j :: at + 1 < j < i - 1 ==> s[j] != '.'
      invariant st == Accept ==> exists k :: at + 1 < k < i - 1 && s[k] == '.'
    {
      var c := s[i];
      if IsWs(c) {
        assert !NoWhitespace(s);
        PatternIsWellFormed(s);
        return false;
      }
      if c == '@' && st != Local {
        if st == Start {
          IndexOfChar(s, '@', 0);
        } else {
          CountTwo(s, '@', at, i);
        }
        PatternIsWellFormed(s);
        return false;
      }
      match st {
        case Start => st := Local;
        case Local =>
          if c == '@' {
            at := i;
            st := AfterAt;
          }
        case AfterAt => st := Domain;
        case Domain =>
          if c == '.' {
            st := DomainDot;
          }
        case DomainDot => st := Accept;
        case Accept =>
      }
      i := i + 1;
    }
    ok := st == Accept;
    if st == Start || st == Local {
      CountZero(s, '@');
    } else {
      WellFormedAt(s, at);
    }
    PatternIsWellFormed(s);
  }
}
