/**
 The fragment of ECMAScript string semantics that the page script relies on:
 white space as both String.prototype.trim and the regular-expression escape
 \s see it, trim itself, startsWith, replace with a string pattern (and the
 first-occurrence search it performs), and the null that
 Element.getAttribute returns for a missing attribute.
 */
module Js {

  /** An optional argument: None stands for `undefined` (the argument was omitted). */
  datatype Option<T> = None | Some(value: T)

  /** The result of Element.getAttribute: Null when the attribute is missing. */
  datatype Attr = Null | Str(value: string)

  /** The string that `"..." + a` produces for an attribute value `a`. */
  function ToJsString(a: Attr): string {
    match a
    case Null => "null"
    case Str(v) => v
  }

  /**
   White space as ECMA-262 defines it: the WhiteSpace code points of
   section 12.2 (TAB, VT, FF, ZWNBSP and every Zs space separator) together
   with the LineTerminator code points of section 12.3 (LF, CR, LS, PS).
   String.prototype.trim strips exactly these, and the class escape \s
   matches exactly these.
   */
  predicate IsWs(c: char) {
    // WhiteSpace
    || c == '\t' || c == '\U{000B}' || c == '\U{000C}' || c == '\U{FEFF}'
    // Zs
    || c == ' ' || c == '\U{00A0}' || c == '\U{1680}' || ('\U{2000}' <= c <= '\U{200A}')
    || c == '\U{202F}' || c == '\U{205F}' || c == '\U{3000}'
    // LineTerminator
    || c == '\n' || c == '\r' || c == '\U{2028}' || c == '\U{2029}'
  }

  predicate AllWs(s: string) {
    forall i :: 0 <= i < |s| ==> IsWs(s[i])
  }

  /** Strips leading white space: what is removed is all white space, and what is kept does not start with it. */
  function TrimStart(s: string): (r: string)
    ensures |r| <= |s| && r == s[|s| - |r|..]
    ensures AllWs(s[..|s| - |r|])
    ensures r != [] ==> !IsWs(r[0])
  {
    if s != [] && IsWs(s[0]) then
      var r := TrimStart(s[1..]);
      assert s[..|s| - |r|] == [s[0]] + s[1..][..|s| - 1 - |r|];
      r
    else
      s
  }

  /** Strips trailing white space: what is removed is all white space, and what is kept does not end with it. */
  function TrimEnd(s: string): (r: string)
    ensures |r| <= |s| && r == s[..|r|]
    ensures AllWs(s[|r|..])
    ensures r != [] ==> !IsWs(r[|r| - 1])
  {
    if s != [] && IsWs(s[|s| - 1]) then
      var r := TrimEnd(s[..|s| - 1]);
      assert s[|r|..] == s[..|s| - 1][|r|..] + [s[|s| - 1]];
      r
    else
      s
  }

  /**
   The shape of a trimmed string: `r` is the slice of `s` starting at `i`,
   everything before and after it is white space, and `r` neither starts nor
   ends with white space.
   */
  predicate IsTrimOf(s: string, i: int, r: string) {
    && 0 <= i <= |s| - |r|
    && r == s[i..i + |r|]
    && AllWs(s[..i])
    && AllWs(s[i + |r|..])
    && (r != [] ==> !IsWs(r[0]) && !IsWs(r[|r| - 1]))
  }

  /** String.prototype.trim. */
  function Trim(s: string): (r: string)
    ensures IsTrimOf(s, |s| - |TrimStart(s)|, r)
  {
    var t := TrimStart(s);
    TrimShape(s, |s| - |t|, t, TrimEnd(t));
    TrimEnd(t)
  }

  /** A value is blank after trim() exactly when it consists of white space only. */
  lemma TrimBlank(s: string)
    ensures Trim(s) == [] <==> AllWs(s)
  {
  }

  /** Stripping white space from the front and then from the back leaves a trimmed core. */
  lemma TrimShape(s: string, i: int, t: string, r: string)
    requires 0 <= i <= |s| && t == s[i..] && AllWs(s[..i]) && (t != [] ==> !IsWs(t[0]))
    requires |r| <= |t| && r == t[..|r|] && AllWs(t[|r|..]) && (r != [] ==> !IsWs(r[|r| - 1]))
    ensures IsTrimOf(s, i, r)
  {
    var n := |r|;
    assert r == s[i..i + n] by {
      assert t == s[i..];
      assert r == t[..n];
    }
    assert AllWs(s[i + n..]) by {
      assert s[i + n..] == t[n..];
    }
    if r != [] {
      assert r[0] == t[0];
    }
  }

  lemma AllWsAppend(a: string, b: string)
    requires AllWs(a) && AllWs(b)
    ensures AllWs(a + b)
  {
    forall k | 0 <= k < |a + b|
      ensures IsWs((a + b)[k])
    {
      if k < |a| {
        assert (a + b)[k] == a[k];
      } else {
        assert (a + b)[k] == b[k - |a|];
      }
    }
  }

  /** Trim is the only way to cut `s` into white space, a trimmed core and white space. */
  lemma TrimUnique(s: string, i: int, r: string)
    requires IsTrimOf(s, i, r)
    ensures r == Trim(s)
  {
    var i' := |s| - |TrimStart(s)|;
    var r' := Trim(s);
    if r == [] {
      EmptyCore(s, i);
    } else {
      assert r[0] == s[i];
      if r' != [] {
        SameCore(s, i, r, i', r');
      }
    }
  }

  lemma EmptyCore(s: string, i: int)
    requires IsTrimOf(s, i, [])
    ensures AllWs(s)
  {
    AllWsAppend(s[..i], s[i..]);
    assert s[..i] + s[i..] == s;
  }

  lemma SameCore(s: string, i: int, r: string, i': int, r': string)
    requires IsTrimOf(s, i, r) && IsTrimOf(s, i', r')
    requires r != [] && r' != []
    ensures r == r'
  {
    // both cores start at the first non-white position and end after the last one
    assert !IsWs(s[i]) && !IsWs(s[i']);
    assert !IsWs(s[i + |r| - 1]) && !IsWs(s[i' + |r'| - 1]);
  }

  /** Trimming a trimmed string changes nothing. */
  lemma TrimIdempotent(s: string)
    ensures Trim(Trim(s)) == Trim(s)
  {
    var r := Trim(s);
    assert r[..0] == [] && r[|r|..] == [];
    assert IsTrimOf(r, 0, r);
    TrimUnique(r, 0, r);
  }

  /** `p` occurs in `s` at position `j`. */
  predicate OccursAt(s: string, p: string, j: int) {
    0 <= j && j + |p| <= |s| && s[j..j + |p|] == p
  }

  function IndexFrom(s: string, p: string, from: nat): (r: int)
    ensures r == -1 || (from <= r && OccursAt(s, p, r))
    ensures forall j :: from <= j && (r == -1 || j < r) ==> !OccursAt(s, p, j)
    decreases |s| - from
  {
    if from + |p| > |s| then -1
    else if s[from..from + |p|] == p then from
    else IndexFrom(s, p, from + 1)
  }

  /**
   The first-occurrence search that replace with a string pattern performs:
   the first position at which `p` occurs in `s`, or -1 when there is none.
   */
  function IndexOf(s: string, p: string): (r: int)
    ensures r == -1 || OccursAt(s, p, r)
    ensures forall j :: 0 <= j && (r == -1 || j < r) ==> !OccursAt(s, p, j)
  {
    IndexFrom(s, p, 0)
  }

  /** String.prototype.startsWith. */
  predicate StartsWith(s: string, p: string) {
    |p| <= |s| && s[..|p|] == p
  }

  /**
   String.prototype.replace(p, "") with a string pattern: only the first
   occurrence of `p` is removed, and a string without `p` is returned unchanged.
   */
  function RemoveFirst(s: string, p: string): string {
    var k := IndexOf(s, p);
    if k == -1 then s else s[..k] + s[k + |p|..]
  }

  /** Removing a prefix the string starts with leaves exactly the rest: `p + RemoveFirst(s, p) == s`. */
  lemma RemoveFirstOfPrefix(s: string, p: string)
    requires StartsWith(s, p)
    ensures p + RemoveFirst(s, p) == s
  {
    assert OccursAt(s, p, 0);
    assert IndexOf(s, p) == 0;
  }

  /** Stripping `p` from `p + x` gives back `x`. */
  lemma RemoveFirstOfConcat(p: string, x: string)
    ensures RemoveFirst(p + x, p) == x
  {
    assert (p + x)[..|p|] == p;
    RemoveFirstOfPrefix(p + x, p);
  }
}
