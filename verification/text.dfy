/**
 * The string operations the services and the derived queries rely on:
 * Java's String.trim, ASCII case folding for the IgnoreCase queries,
 * substring search for Containing/LIKE and the lexicographic order used
 * by ORDER BY.
 */
module Text {

  /** String.trim removes every character at or below U+0020. */
  predicate IsSpace(c: char) {
    c <= ' '
  }

  /** Drops the leading spaces: a suffix of s that starts with a non-space. */
  function TrimStart(s: string): (r: string)
    ensures |r| <= |s| && r == s[|s| - |r|..]
    ensures forall i :: 0 <= i < |s| - |r| ==> IsSpace(s[i])
    ensures r == [] || !IsSpace(r[0])
    decreases |s|
  {
    if |s| > 0 && IsSpace(s[0]) then TrimStart(s[1..]) else s
  }

  /** Drops the trailing spaces: a prefix of s that ends with a non-space. */
  function TrimEnd(s: string): (r: string)
    ensures |r| <= |s| && r == s[..|r|]
    ensures forall i :: |r| <= i < |s| ==> IsSpace(s[i])
    ensures r == [] || !IsSpace(r[|r| - 1])
    decreases |s|
  {
    if |s| > 0 && IsSpace(s[|s| - 1]) then TrimEnd(s[..|s| - 1]) else s
  }

  /** Java's String.trim. */
  function Trim(s: string): (r: string)
    ensures |r| <= |s|
    ensures r == [] || (!IsSpace(r[0]) && !IsSpace(r[|r| - 1]))
    ensures r == [] <==> forall i :: 0 <= i < |s| ==> IsSpace(s[i])
  {
    var t := TrimStart(s);
    var r := TrimEnd(t);
    assert r != [] ==> r[0] == t[0];
    r
  }

  /**
   * Trim(s) is the one infix s[a..b] outside of which everything is a
   * space and whose two ends are not spaces.
   */
  lemma {:induction false} TrimIsCoreInfix(s: string, a: int, b: int)
    requires 0 <= a <= b <= |s|
    requires forall i :: 0 <= i < a ==> IsSpace(s[i])
    requires forall i :: b <= i < |s| ==> IsSpace(s[i])
    requires a == b || (!IsSpace(s[a]) && !IsSpace(s[b - 1]))
    ensures Trim(s) == s[a..b]
  {
    var t := TrimStart(s);
    var k := |s| - |t|;
    if a == b {
      assert forall i :: 0 <= i < |s| ==> IsSpace(s[i]) by {
        forall i | 0 <= i < |s| ensures IsSpace(s[i]) {
          if i >= b {
          } else {
            assert i < a;
          }
        }
      }
    } else {
      // The first non-space character of s is s[a].
      assert k == a;
      var r := TrimEnd(t);
      assert |r| == b - a;
      assert r == t[..b - a] == s[a..b];
    }
  }

  /** Trimming twice is trimming once. */
  lemma TrimIdempotent(s: string)
    ensures Trim(Trim(s)) == Trim(s)
  {
    var r := Trim(s);
    TrimIsCoreInfix(r, 0, |r|);
  }

  /** `s == null || s.trim().isEmpty()` for a non-null s. */
  predicate IsBlank(s: string) {
    Trim(s) == []
  }

  /** Character.toLowerCase restricted to ASCII letters. */
  function LowerChar(c: char): char {
    if 'A' <= c <= 'Z' then (c as int + 32) as char else c
  }

  /** String.toLowerCase / SQL LOWER, on ASCII letters. */
  function Lower(s: string): (r: string)
    ensures |r| == |s|
    ensures forall i :: 0 <= i < |s| ==> r[i] == LowerChar(s[i])
  {
    if s == [] then [] else [LowerChar(s[0])] + Lower(s[1..])
  }

  /** String.equalsIgnoreCase / `LOWER(a) = LOWER(b)`. */
  predicate EqualsIgnoreCase(a: string, b: string) {
    Lower(a) == Lower(b)
  }

  predicate StartsWith(s: string, p: string) {
    |p| <= |s| && s[..|p|] == p
  }

  /** String.contains / `LIKE CONCAT('%', p, '%')` with no wildcard in p. */
  predicate Contains(s: string, p: string)
    decreases |s|
  {
    StartsWith(s, p) || (|s| > 0 && Contains(s[1..], p))
  }

  /** Contains agrees with the positional definition of a substring. */
  lemma {:induction false} ContainsAt(s: string, p: string)
    ensures Contains(s, p) <==> exists k :: 0 <= k <= |s| && StartsWith(s[k..], p)
    decreases |s|
  {
    if |s| > 0 {
      ContainsAt(s[1..], p);
      if StartsWith(s, p) {
        assert s[0..] == s;
      }
      if Contains(s[1..], p) {
        var k :| 0 <= k <= |s| - 1 && StartsWith(s[1..][k..], p);
        assert s[1..][k..] == s[k + 1..];
      }
      if exists k :: 0 <= k <= |s| && StartsWith(s[k..], p) {
        var k :| 0 <= k <= |s| && StartsWith(s[k..], p);
        if k > 0 {
          assert s[1..][k - 1..] == s[k..];
          assert StartsWith(s[1..][k - 1..], p);
          assert Contains(s[1..], p);
        } else {
          assert s[k..] == s;
        }
      }
    } else {
      assert s[0..] == s;
    }
  }

  /** The empty pattern is contained in every string. */
  lemma ContainsEmpty(s: string)
    ensures Contains(s, [])
  {
  }

  /** `findBy...ContainingIgnoreCase` / `LOWER(x) LIKE LOWER('%p%')`. */
  predicate ContainsIgnoreCase(s: string, p: string) {
    Contains(Lower(s), Lower(p))
  }

  /** Lexicographic order on character codes: ORDER BY without a collation. */
  predicate Less(a: string, b: string)
    decreases |a|
  {
    if a == [] then b != []
    else b != [] && (a[0] < b[0] || (a[0] == b[0] && Less(a[1..], b[1..])))
  }

  lemma {:induction false} LessIrreflexive(a: string)
    ensures !Less(a, a)
    decreases |a|
  {
    if a != [] {
      LessIrreflexive(a[1..]);
    }
  }

  lemma {:induction false} LessTransitive(a: string, b: string, c: string)
    requires Less(a, b) && Less(b, c)
    ensures Less(a, c)
    decreases |a|
  {
    if a != [] && a[0] == b[0] && b[0] == c[0] {
      LessTransitive(a[1..], b[1..], c[1..]);
    }
  }

  lemma {:induction false} LessTotal(a: string, b: string)
    ensures a == b || Less(a, b) || Less(b, a)
    decreases |a|
  {
    if a != [] && b != [] && a[0] == b[0] {
      LessTotal(a[1..], b[1..]);
      if a[1..] == b[1..] {
        assert a == [a[0]] + a[1..] && b == [b[0]] + b[1..];
      }
    }
  }

  lemma {:induction false} LessAsymmetric(a: string, b: string)
    requires Less(a, b)
    ensures !Less(b, a)
  {
    if Less(b, a) {
      LessTransitive(a, b, a);
      LessIrreflexive(a);
    }
  }

  /** The non-strict order: a comes no later than b. */
  predicate LessEq(a: string, b: string) {
    !Less(b, a)
  }
}
