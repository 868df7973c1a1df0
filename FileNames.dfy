/**
 * File-name helpers used by the media scanner: the extension of a name,
 * ASCII lower-casing, and the name order that `sortedBy { it.name }` uses.
 */
module FileNames {

  /**
   * The text after the last '.' of `name`, or the empty string when the name
   * has no '.' at all (Kotlin's `File.extension`).
   */
  function Extension(name: string): (ext: string)
    ensures '.' !in ext
    ensures '.' !in name ==> ext == ""
    ensures '.' in name ==>
      |ext| < |name| && name[|name| - |ext| - 1] == '.' && ext == name[|name| - |ext|..]
    decreases |name|
  {
    if '.' !in name then ""
    else if name[|name| - 1] == '.' then ""
    else
      var init := name[..|name| - 1];
      assert '.' in init by {
        var k :| 0 <= k < |name| && name[k] == '.';
        assert k < |name| - 1 && init[k] == '.';
      }
      Extension(init) + [name[|name| - 1]]
  }

  /** `c` and `d` are the same character, or the same ASCII letter in the two cases. */
  predicate SameUpToAsciiCase(c: char, d: char) {
    || c == d
    || ('A' <= c <= 'Z' && d as int == c as int + 32)
    || ('A' <= d <= 'Z' && c as int == d as int + 32)
  }

  /** Two strings of one length that agree position by position up to ASCII case. */
  ghost predicate SameUpToAsciiCaseString(a: string, b: string) {
    |a| == |b| && forall i :: 0 <= i < |a| ==> SameUpToAsciiCase(a[i], b[i])
  }

  /** ASCII lower-casing of one character: no upper-case ASCII letter survives. */
  function LowerChar(c: char): (r: char)
    ensures !('A' <= r <= 'Z')
    ensures SameUpToAsciiCase(c, r)
  {
    if 'A' <= c <= 'Z' then (c as int - 'A' as int + 'a' as int) as char else c
  }

  /** ASCII lower-casing, character by character. */
  function Lower(s: string): (r: string)
    ensures |r| == |s|
    ensures forall i :: 0 <= i < |s| ==> r[i] == LowerChar(s[i])
    ensures forall i :: 0 <= i < |r| ==> !('A' <= r[i] <= 'Z')
    ensures SameUpToAsciiCaseString(s, r)
  {
    seq(|s|, i requires 0 <= i < |s| => LowerChar(s[i]))
  }

  /**
   * Lower-casing forgets exactly ASCII case: two strings lower-case to the
   * same string if and only if they agree up to ASCII case.
   */
  lemma LowerIgnoresCase(a: string, b: string)
    ensures Lower(a) == Lower(b) <==> SameUpToAsciiCaseString(a, b)
  {
    if SameUpToAsciiCaseString(a, b) {
      forall i | 0 <= i < |a| ensures Lower(a)[i] == Lower(b)[i] {
        LowerCharIgnoresCase(a[i], b[i]);
      }
    }
    if Lower(a) == Lower(b) {
      forall i | 0 <= i < |a| ensures SameUpToAsciiCase(a[i], b[i]) {
        assert Lower(a)[i] == Lower(b)[i];
        LowerCharIgnoresCase(a[i], b[i]);
      }
    }
  }

  lemma LowerCharIgnoresCase(c: char, d: char)
    ensures LowerChar(c) == LowerChar(d) <==> SameUpToAsciiCase(c, d)
  {
  }

  /**
   * Kotlin's `String.compareTo(...) <= 0`: character codes compared from the
   * left, and a proper prefix orders before the longer name.
   */
  predicate NameLe(a: string, b: string)
    ensures NameLe(a, b) <==> a <= b || exists k :: FirstDifferenceSmaller(a, b, k)
    decreases |a|
  {
    if |a| == 0 then true
    else if |b| == 0 then false
    else if a[0] != b[0] then
      assert FirstDifferenceSmaller(a, b, 0) <==> a[0] < b[0];
      assert forall k :: FirstDifferenceSmaller(a, b, k) ==> k == 0;
      a[0] < b[0]
    else
      var r := NameLe(a[1..], b[1..]);
      assert a <= b <==> a[1..] <= b[1..];
      assert forall k :: FirstDifferenceSmaller(a, b, k) ==> k > 0 && FirstDifferenceSmaller(a[1..], b[1..], k - 1);
      assert forall k :: FirstDifferenceSmaller(a[1..], b[1..], k) ==> FirstDifferenceSmaller(a, b, k + 1);
      r
  }

  /** `a` and `b` agree before position `k`, and at `k` the character of `a` is smaller. */
  ghost predicate FirstDifferenceSmaller(a: string, b: string, k: int) {
    0 <= k < |a| && k < |b| && a[..k] == b[..k] && a[k] < b[k]
  }

  lemma {:induction false} NameLeReflexive(a: string)
    ensures NameLe(a, a)
    decreases |a|
  {
    if |a| > 0 { NameLeReflexive(a[1..]); }
  }

  lemma {:induction false} NameLeTotal(a: string, b: string)
    ensures NameLe(a, b) || NameLe(b, a)
    decreases |a|
  {
    if |a| > 0 && |b| > 0 && a[0] == b[0] { NameLeTotal(a[1..], b[1..]); }
  }

  lemma {:induction false} NameLeAntisymmetric(a: string, b: string)
    requires NameLe(a, b) && NameLe(b, a)
    ensures a == b
    decreases |a|
  {
    if |a| > 0 {
      NameLeAntisymmetric(a[1..], b[1..]);
      assert a == [a[0]] + a[1..] && b == [b[0]] + b[1..];
    }
  }

  lemma {:induction false} NameLeTransitive(a: string, b: string, c: string)
    requires NameLe(a, b) && NameLe(b, c)
    ensures NameLe(a, c)
    decreases |a|
  {
    if |a| > 0 && |b| > 0 && |c| > 0 && a[0] == b[0] && b[0] == c[0] {
      NameLeTransitive(a[1..], b[1..], c[1..]);
    }
  }
}
