/**
  Python's `str.strip()` with no argument: remove every leading and every
  trailing character for which `str.isspace()` holds.
 */
module PyStrings {

  /** The code points for which Python 3's `str.isspace()` holds, one by one:
      the characters whose bidirectional class is WS, B or S, or whose
      general category is Zs. */
  const Whitespace: set<char> := {
    '\U{0009}', '\U{000A}', '\U{000B}', '\U{000C}', '\U{000D}',
    '\U{001C}', '\U{001D}', '\U{001E}', '\U{001F}', '\U{0020}',
    '\U{0085}', '\U{00A0}', '\U{1680}',
    '\U{2000}', '\U{2001}', '\U{2002}', '\U{2003}', '\U{2004}', '\U{2005}',
    '\U{2006}', '\U{2007}', '\U{2008}', '\U{2009}', '\U{200A}',
    '\U{2028}', '\U{2029}', '\U{202F}', '\U{205F}', '\U{3000}'
  }

  /** `str.isspace()` on a single code point, decided by code-point ranges. */
  predicate IsSpace(c: char) {
    var n := c as int;
    || 0x09 <= n <= 0x0D
    || 0x1C <= n <= 0x20
    || n == 0x85 || n == 0xA0 || n == 0x1680
    || 0x2000 <= n <= 0x200A
    || n == 0x2028 || n == 0x2029 || n == 0x202F || n == 0x205F || n == 0x3000
  }

  /** The ranges of `IsSpace` accept exactly the code points of `Whitespace`. */
  lemma IsSpaceMatchesTable(c: char)
    ensures IsSpace(c) <==> c in Whitespace
  {
  }

  predicate AllSpace(s: string) {
    forall k :: 0 <= k < |s| ==> IsSpace(s[k])
  }

  /** Neither the first nor the last character is whitespace. */
  predicate NoEdgeSpace(s: string) {
    |s| == 0 || (!IsSpace(s[0]) && !IsSpace(s[|s| - 1]))
  }

  /** `r` is what remains of `s` once its first `i` characters and its last
      `|s| - i - |r|` characters, all of them whitespace, are cut off. */
  ghost predicate TrimAt(s: string, r: string, i: int) {
    && 0 <= i && i + |r| <= |s|
    && (forall k :: 0 <= k < |r| ==> r[k] == s[i + k])
    && (forall k :: 0 <= k < i ==> IsSpace(s[k]))
    && (forall k :: i + |r| <= k < |s| ==> IsSpace(s[k]))
  }

  /** `str.strip()`: drop whitespace from the front while there is some,
      then from the back while there is some. */
  function Strip(s: string): (r: string)
    ensures |r| <= |s|
    ensures NoEdgeSpace(r)
    decreases |s|
  {
    if |s| > 0 && IsSpace(s[0]) then Strip(s[1..])
    else if |s| > 0 && IsSpace(s[|s| - 1]) then Strip(s[..|s| - 1])
    else s
  }

  /** `Strip` removes nothing but a whitespace prefix and a whitespace
      suffix: what it returns is a contiguous piece of its input. */
  lemma {:induction false} StripIsTrim(s: string)
    ensures exists i :: TrimAt(s, Strip(s), i)
    decreases |s|
  {
    var r := Strip(s);
    if |s| > 0 && IsSpace(s[0]) {
      StripIsTrim(s[1..]);
      var i :| TrimAt(s[1..], r, i);
      TrimExtendFront(s, r, i);
    } else if |s| > 0 && IsSpace(s[|s| - 1]) {
      StripIsTrim(s[..|s| - 1]);
      var i :| TrimAt(s[..|s| - 1], r, i);
      TrimExtendBack(s, r, i);
    } else {
      assert TrimAt(s, s, 0);
    }
  }

  /** A trim of `s` without its leading whitespace character is a trim of `s`. */
  lemma TrimExtendFront(s: string, r: string, i: int)
    requires |s| > 0 && IsSpace(s[0]) && TrimAt(s[1..], r, i)
    ensures TrimAt(s, r, i + 1)
  {
    forall k | 0 <= k < i + 1 ensures IsSpace(s[k]) {
      if k > 0 { assert s[k] == s[1..][k - 1]; }
    }
    forall k | i + 1 + |r| <= k < |s| ensures IsSpace(s[k]) {
      assert s[k] == s[1..][k - 1];
    }
  }

  /** A trim of `s` without its trailing whitespace character is a trim of `s`. */
  lemma TrimExtendBack(s: string, r: string, i: int)
    requires |s| > 0 && IsSpace(s[|s| - 1]) && TrimAt(s[..|s| - 1], r, i)
    ensures TrimAt(s, r, i)
  {
    var p := s[..|s| - 1];
    forall k | i + |r| <= k < |s| ensures IsSpace(s[k]) {
      if k < |s| - 1 { assert s[k] == p[k]; }
    }
  }

  /** Two trims of the same string that both leave no edge whitespace are
      the same string. */
  lemma TrimUnique(s: string, a: string, i: int, b: string, j: int)
    requires TrimAt(s, a, i) && NoEdgeSpace(a)
    requires TrimAt(s, b, j) && NoEdgeSpace(b)
    ensures a == b
  {
    if |a| > 0 && |b| > 0 {
      assert s[i] == a[0] && s[j] == b[0];
      assert i == j;
      assert s[i + |a| - 1] == a[|a| - 1] && s[j + |b| - 1] == b[|b| - 1];
      assert |a| == |b|;
    }
  }

  /** `Strip(s)` is the one and only whitespace trim of `s` that leaves no
      whitespace at either edge. */
  lemma StripCharacterisation(s: string, r: string, i: int)
    ensures TrimAt(s, r, i) && NoEdgeSpace(r) ==> r == Strip(s)
  {
    if TrimAt(s, r, i) && NoEdgeSpace(r) {
      StripIsTrim(s);
      var k :| TrimAt(s, Strip(s), k);
      TrimUnique(s, r, i, Strip(s), k);
    }
  }

  /** A string is left unchanged by `Strip` exactly when it has no edge
      whitespace; in particular stripping twice is stripping once. */
  lemma StripFixpoint(s: string)
    ensures Strip(s) == s <==> NoEdgeSpace(s)
    ensures Strip(Strip(s)) == Strip(s)
  {
    if NoEdgeSpace(s) {
      StripCharacterisation(s, s, 0);
    }
    StripCharacterisation(Strip(s), Strip(s), 0);
  }

  /** Whitespace added around a string is removed again by `Strip`, as long
      as the string itself has no edge whitespace. */
  lemma StripPadding(pre: string, s: string, post: string)
    requires AllSpace(pre) && AllSpace(post) && NoEdgeSpace(s)
    ensures Strip(pre + s + post) == s
  {
    var w := pre + s + post;
    assert TrimAt(w, s, |pre|) by {
      forall k | |pre| + |s| <= k < |w| ensures IsSpace(w[k]) {
        assert w[k] == post[k - |pre| - |s|];
      }
    }
    StripCharacterisation(w, s, |pre|);
  }
}
