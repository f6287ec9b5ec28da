/**
 * The two pieces of java.lang.String the store relies on: `trim`, which strips
 * every character up to U+0020 from both ends, and `compareTo`, the
 * lexicographic order `Collections.sort` uses on the listing.
 */
module Text {

  /** The characters `String.trim` removes. */
  predicate IsSpace(c: char) {
    c <= ' '
  }

  /** Nothing but characters that `trim` removes (the empty string included). */
  predicate Blank(s: string) {
    forall i :: 0 <= i < |s| ==> IsSpace(s[i])
  }

  /** Neither end can be trimmed any further. */
  predicate Trimmed(s: string) {
    s == [] || (!IsSpace(s[0]) && !IsSpace(s[|s| - 1]))
  }

  function TrimStart(s: string): (r: string)
    ensures |r| <= |s| && r == s[|s| - |r|..]
    ensures r == [] <==> Blank(s)
    ensures r != [] ==> !IsSpace(r[0])
  {
    if s != [] && IsSpace(s[0]) then
      assert Blank(s) <==> Blank(s[1..]) by {
        assert forall i :: 0 < i < |s| ==> s[i] == s[1..][i - 1];
      }
      TrimStart(s[1..])
    else
      s
  }

  /** `TrimStart` removes only a blank prefix. */
  lemma {:induction false} TrimStartCuts(s: string)
    ensures Blank(s[..|s| - |TrimStart(s)|])
  {
    if s != [] && IsSpace(s[0]) {
      var r := TrimStart(s[1..]);
      TrimStartCuts(s[1..]);
      assert s[..|s| - |r|] == [s[0]] + s[1..][..|s| - 1 - |r|];
    }
  }

  function TrimEnd(s: string): (r: string)
    ensures |r| <= |s| && r == s[..|r|]
    ensures r == [] <==> Blank(s)
    ensures r != [] ==> !IsSpace(r[|r| - 1])
  {
    if s != [] && IsSpace(s[|s| - 1]) then
      assert Blank(s) <==> Blank(s[..|s| - 1]) by {
        assert forall i :: 0 <= i < |s| - 1 ==> s[i] == s[..|s| - 1][i];
      }
      TrimEnd(s[..|s| - 1])
    else
      s
  }

  /** `TrimEnd` removes only a blank suffix. */
  lemma {:induction false} TrimEndCuts(s: string)
    ensures Blank(s[|TrimEnd(s)|..])
  {
    if s != [] && IsSpace(s[|s| - 1]) {
      var r := TrimEnd(s[..|s| - 1]);
      TrimEndCuts(s[..|s| - 1]);
      assert s[|r|..] == s[..|s| - 1][|r|..] + [s[|s| - 1]];
    }
  }

  /** `String.trim`: the result is the input with a blank prefix and a blank
      suffix cut off, has nothing left to cut, is empty exactly for blank
      input, and an already trimmed string is left alone. */
  function Trim(s: string): (r: string)
    ensures Trimmed(r)
    ensures r == [] <==> Blank(s)
    ensures Trimmed(s) ==> r == s
  {
    var t := TrimStart(s);
    var r := TrimEnd(t);
    assert r != [] ==> r[0] == t[0];
    r
  }

  /** What `trim` cuts off: the result sits inside the input with only
      blank characters before and after it. */
  lemma TrimCuts(s: string)
    ensures exists k :: 0 <= k <= |s| - |Trim(s)| && Trim(s) == s[k..k + |Trim(s)|]
                        && Blank(s[..k]) && Blank(s[k + |Trim(s)|..])
  {
    var t := TrimStart(s);
    var r := Trim(s);
    var k := |s| - |t|;
    TrimStartCuts(s);
    TrimEndCuts(t);
    assert r == s[k..k + |r|] && s[k + |r|..] == t[|r|..];
  }

  /** `trim` only removes characters: one absent before is absent after. */
  lemma TrimKeepsAbsent(s: string, c: char)
    requires c !in s
    ensures c !in Trim(s)
  {
    var t := TrimStart(s);
    assert c !in t;
  }

  /** `a.compareTo(b) <= 0`: character by character, a proper prefix first. */
  predicate LexLe(a: string, b: string) {
    a == [] || (b != [] && (a[0] < b[0] || (a[0] == b[0] && LexLe(a[1..], b[1..]))))
  }

  /** `LexLe` is the order `String.compareTo` specifies: `a` is a prefix of
      `b`, or `a` has the smaller character at the first index where they
      differ. */
  lemma {:induction false} LexLeFirstDifference(a: string, b: string)
    ensures LexLe(a, b) <==> (a <= b || FirstDifferenceBelow(a, b))
  {
    if a != [] && b != [] {
      if a[0] != b[0] {
        FirstDifferenceAt(a, b, 0);
      } else {
        FirstDifferenceShift(a, b);
        LexLeFirstDifference(a[1..], b[1..]);
      }
    }
  }

  /** The characters at the first index where `a` and `b` differ are in
      ascending order. */
  ghost predicate FirstDifferenceBelow(a: string, b: string) {
    exists k :: 0 <= k < |a| && k < |b| && a[..k] == b[..k] && a[k] < b[k]
  }

  lemma FirstDifferenceAt(a: string, b: string, k: nat)
    requires k < |a| && k < |b| && a[..k] == b[..k] && a[k] != b[k]
    ensures FirstDifferenceBelow(a, b) <==> a[k] < b[k]
  {
    if FirstDifferenceBelow(a, b) {
      var j :| 0 <= j < |a| && j < |b| && a[..j] == b[..j] && a[j] < b[j];
      assert j == k;
    }
  }

  lemma FirstDifferenceShift(a: string, b: string)
    requires a != [] && b != [] && a[0] == b[0]
    ensures a <= b <==> a[1..] <= b[1..]
    ensures FirstDifferenceBelow(a, b) <==> FirstDifferenceBelow(a[1..], b[1..])
  {
    assert a == [a[0]] + a[1..] && b == [b[0]] + b[1..];
    if FirstDifferenceBelow(a, b) {
      var k :| 0 <= k < |a| && k < |b| && a[..k] == b[..k] && a[k] < b[k];
      assert k > 0;
      assert a[1..][..k - 1] == a[..k][1..] && b[1..][..k - 1] == b[..k][1..];
      assert a[1..][k - 1] < b[1..][k - 1];
    }
    if FirstDifferenceBelow(a[1..], b[1..]) {
      var k :| 0 <= k < |a[1..]| && k < |b[1..]| && a[1..][..k] == b[1..][..k] && a[1..][k] < b[1..][k];
      assert a[..k + 1] == [a[0]] + a[1..][..k] && b[..k + 1] == [b[0]] + b[1..][..k];
      assert a[k + 1] < b[k + 1];
    }
  }

  lemma {:induction false} LexLeTotal(a: string, b: string)
    ensures LexLe(a, b) || LexLe(b, a)
  {
    if a != [] && b != [] && a[0] == b[0] {
      LexLeTotal(a[1..], b[1..]);
    }
  }

  lemma {:induction false} LexLeAntisymmetric(a: string, b: string)
    requires LexLe(a, b) && LexLe(b, a)
    ensures a == b
  {
    if a != [] && b != [] {
      LexLeAntisymmetric(a[1..], b[1..]);
      assert a == [a[0]] + a[1..] && b == [b[0]] + b[1..];
    }
  }

  lemma {:induction false} LexLeTransitive(a: string, b: string, c: string)
    requires LexLe(a, b) && LexLe(b, c)
    ensures LexLe(a, c)
  {
    if a != [] && b != [] && c != [] && a[0] == b[0] && b[0] == c[0] {
      LexLeTransitive(a[1..], b[1..], c[1..]);
    }
  }
}
