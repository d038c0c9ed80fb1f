/**
 * The string operations the filter relies on: `trim`, `toLowerCase`,
 * `includes`, `join`, and the order `localeCompare` sorts by.
 * Whitespace and case mapping are restricted to ASCII; collation is the
 * plain lexicographic order on characters.
 */
module Text {

  /** ASCII whitespace as `trim` removes it: space, tab, line feed, vertical tab, form feed, carriage return. */
  predicate IsWhitespace(c: char) {
    c == ' ' || '\t' <= c <= '\r'
  }

  predicate AllWhitespace(s: string) {
    forall k :: 0 <= k < |s| ==> IsWhitespace(s[k])
  }

  /** Drops the leading whitespace of `s`: the result is the suffix of `s` that starts at its first non-whitespace character. */
  function TrimStart(s: string): (r: string)
    ensures |r| <= |s| && r == s[|s| - |r|..]
    ensures AllWhitespace(s[..|s| - |r|])
    ensures r != [] ==> !IsWhitespace(r[0])
  {
    if s != [] && IsWhitespace(s[0]) then
      var r := TrimStart(s[1..]);
      var n := |s| - |r|;
      assert forall k :: 1 <= k < n ==> s[k] == s[1..][..n - 1][k - 1];
      r
    else
      s
  }

  /** Drops the trailing whitespace of `s`: the result is the prefix of `s` that ends at its last non-whitespace character. */
  function TrimEnd(s: string): (r: string)
    ensures |r| <= |s| && r == s[..|r|]
    ensures AllWhitespace(s[|r|..])
    ensures r != [] ==> !IsWhitespace(r[|r| - 1])
  {
    if s != [] && IsWhitespace(s[|s| - 1]) then
      var r := TrimEnd(s[..|s| - 1]);
      assert s[|r|..] == s[..|s| - 1][|r|..] + [s[|s| - 1]];
      r
    else
      s
  }

  /** `r` is the slice of `s` at offset `i`, and everything around it is whitespace. */
  predicate TrimmedAt(s: string, i: int, r: string) {
    0 <= i <= |s| - |r| && s[i..i + |r|] == r && AllWhitespace(s[..i]) && AllWhitespace(s[i + |r|..])
  }

  /** `String.prototype.trim`. */
  function Trim(s: string): (r: string)
    ensures |r| <= |s|
    ensures r == [] <==> AllWhitespace(s)
    ensures r != [] ==> !IsWhitespace(r[0]) && !IsWhitespace(r[|r| - 1])
    ensures exists i :: TrimmedAt(s, i, r)
  {
    var t := TrimStart(s);
    var r := TrimEnd(t);
    TrimFacts(s, t, r);
    r
  }

  lemma AllWhitespaceSplit(s: string, i: nat)
    requires i <= |s|
    ensures AllWhitespace(s) <==> AllWhitespace(s[..i]) && AllWhitespace(s[i..])
  {
    if AllWhitespace(s[..i]) && AllWhitespace(s[i..]) {
      forall k | 0 <= k < |s| ensures IsWhitespace(s[k]) {
        if k < i { assert s[k] == s[..i][k]; } else { assert s[k] == s[i..][k - i]; }
      }
    }
  }

  /**
   * What trimming both ends yields, from the contracts of `TrimStart` and
   * `TrimEnd` alone: a slice of `s` whose surroundings are whitespace,
   * empty exactly when `s` is all whitespace.
   */
  lemma TrimFacts(s: string, t: string, r: string)
    requires |t| <= |s| && t == s[|s| - |t|..] && AllWhitespace(s[..|s| - |t|])
    requires t != [] ==> !IsWhitespace(t[0])
    requires |r| <= |t| && r == t[..|r|] && AllWhitespace(t[|r|..])
    requires r != [] ==> !IsWhitespace(r[|r| - 1])
    ensures TrimmedAt(s, |s| - |t|, r)
    ensures r == [] <==> AllWhitespace(s)
  {
    var i := |s| - |t|;
    assert s[i..i + |r|] == r;
    assert s[i + |r|..] == t[|r|..];
    AllWhitespaceSplit(s, i);
    if r == [] {
      assert t[|r|..] == t;
    }
  }

  /** ASCII `toLowerCase` of one character. */
  function LowerChar(c: char): char {
    if 'A' <= c <= 'Z' then (c as int + 32) as char else c
  }

  /** `String.prototype.toLowerCase`, restricted to ASCII letters. */
  function Lower(s: string): (r: string)
    ensures |r| == |s|
    ensures forall k :: 0 <= k < |s| ==> r[k] == LowerChar(s[k])
  {
    if s == [] then [] else [LowerChar(s[0])] + Lower(s[1..])
  }

  lemma LowerConcat(a: string, b: string)
    ensures Lower(a + b) == Lower(a) + Lower(b)
  {
    assert forall k :: 0 <= k < |a + b| ==> Lower(a + b)[k] == (Lower(a) + Lower(b))[k];
  }

  /** `t` occurs in `h` starting at offset `i`. */
  predicate OccursAt(h: string, t: string, i: int) {
    0 <= i <= |h| - |t| && h[i..i + |t|] == t
  }

  /** `String.prototype.includes`: compare at offset 0, then search the rest. */
  predicate Contains(h: string, t: string) {
    (|t| <= |h| && h[..|t|] == t) || (h != [] && Contains(h[1..], t))
  }

  /** The search finds `t` exactly when `t` occurs somewhere in `h`. */
  lemma {:induction false} ContainsIffOccurs(h: string, t: string)
    ensures Contains(h, t) <==> exists i :: OccursAt(h, t, i)
  {
    if |t| <= |h| && h[..|t|] == t {
      assert OccursAt(h, t, 0);
    } else if h == [] {
      assert forall i :: !OccursAt(h, t, i);
    } else {
      ContainsIffOccurs(h[1..], t);
      forall i | OccursAt(h[1..], t, i) ensures OccursAt(h, t, i + 1) {
        assert h[i + 1..i + 1 + |t|] == h[1..][i..i + |t|];
      }
      forall i | OccursAt(h, t, i) ensures OccursAt(h[1..], t, i - 1) {
        assert i != 0;
        assert h[1..][i - 1..i - 1 + |t|] == h[i..i + |t|];
      }
    }
  }

  /** Every string includes the empty string. */
  lemma ContainsEmpty(h: string)
    ensures Contains(h, "")
  {
    ContainsIffOccurs(h, "");
    assert OccursAt(h, "", 0);
  }

  /** A string includes whatever stands in its middle. */
  lemma ContainsInfix(a: string, b: string, c: string)
    ensures Contains(a + b + c, b)
  {
    var h := a + b + c;
    assert h[|a|..|a| + |b|] == b;
    assert OccursAt(h, b, |a|);
    ContainsIffOccurs(h, b);
  }

  /** Inclusion survives lowering both sides. */
  lemma ContainsLower(h: string, t: string)
    requires Contains(h, t)
    ensures Contains(Lower(h), Lower(t))
  {
    ContainsIffOccurs(h, t);
    var i :| OccursAt(h, t, i);
    assert Lower(h)[i..i + |t|] == Lower(t);
    assert OccursAt(Lower(h), Lower(t), i);
    ContainsIffOccurs(Lower(h), Lower(t));
  }

  /** Inclusion survives widening the haystack on both sides. */
  lemma ContainsWiden(a: string, h: string, c: string, t: string)
    requires Contains(h, t)
    ensures Contains(a + h + c, t)
  {
    ContainsIffOccurs(h, t);
    var i :| OccursAt(h, t, i);
    assert (a + h + c)[|a| + i..|a| + i + |t|] == h[i..i + |t|];
    assert OccursAt(a + h + c, t, |a| + i);
    ContainsIffOccurs(a + h + c, t);
  }

  /** Inclusion is transitive. */
  lemma ContainsTransitive(a: string, b: string, c: string)
    requires Contains(a, b) && Contains(b, c)
    ensures Contains(a, c)
  {
    ContainsIffOccurs(a, b);
    ContainsIffOccurs(b, c);
    var i :| OccursAt(a, b, i);
    var j :| OccursAt(b, c, j);
    forall k | 0 <= k < |c| ensures a[i + j + k] == c[k] {
      assert c[k] == b[j..j + |c|][k] == b[j + k];
      assert b[j + k] == a[i..i + |b|][j + k];
    }
    assert a[i + j..i + j + |c|] == c;
    assert OccursAt(a, c, i + j);
    ContainsIffOccurs(a, c);
  }

  /** `Array.prototype.join(sep)`. */
  function Join(parts: seq<string>, sep: string): string {
    if |parts| == 0 then ""
    else if |parts| == 1 then parts[0]
    else parts[0] + sep + Join(parts[1..], sep)
  }

  /** Every part of a join occurs in the joined string. */
  lemma {:induction false} JoinContainsPart(parts: seq<string>, sep: string, k: nat)
    requires k < |parts|
    ensures Contains(Join(parts, sep), parts[k])
  {
    if |parts| == 1 {
      ContainsInfix("", parts[0], "");
      assert "" + parts[0] + "" == parts[0];
    } else if k == 0 {
      ContainsInfix("", parts[0], sep + Join(parts[1..], sep));
      assert "" + parts[0] + (sep + Join(parts[1..], sep)) == Join(parts, sep);
    } else {
      JoinContainsPart(parts[1..], sep, k - 1);
      ContainsWiden(parts[0] + sep, Join(parts[1..], sep), "", parts[k]);
      assert parts[0] + sep + Join(parts[1..], sep) + "" == Join(parts, sep);
    }
  }

  /** Lexicographic order on characters, in place of `a.localeCompare(b) <= 0`. */
  predicate LessEq(a: string, b: string) {
    a == [] || (b != [] && (a[0] < b[0] || (a[0] == b[0] && LessEq(a[1..], b[1..]))))
  }

  lemma {:induction false} LessEqReflexive(a: string)
    ensures LessEq(a, a)
  {
    if a != [] {
      LessEqReflexive(a[1..]);
    }
  }

  lemma {:induction false} LessEqTotal(a: string, b: string)
    ensures LessEq(a, b) || LessEq(b, a)
  {
    if a != [] && b != [] && a[0] == b[0] {
      LessEqTotal(a[1..], b[1..]);
    }
  }

  lemma {:induction false} LessEqTransitive(a: string, b: string, c: string)
    requires LessEq(a, b) && LessEq(b, c)
    ensures LessEq(a, c)
  {
    if a != [] && a[0] == b[0] && b[0] == c[0] {
      LessEqTransitive(a[1..], b[1..], c[1..]);
    }
  }

  lemma {:induction false} LessEqAntisymmetric(a: string, b: string)
    requires LessEq(a, b) && LessEq(b, a)
    ensures a == b
  {
    if a != [] {
      LessEqAntisymmetric(a[1..], b[1..]);
      assert a == [a[0]] + a[1..];
      assert b == [b[0]] + b[1..];
    }
  }
}
