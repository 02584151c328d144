/** Python string operations the pipeline relies on: str.strip() with no
    argument, str.isspace() character class, and " ".join(...). */
module Text {

  /** Python's whitespace characters (str.isspace), by code point: the ASCII
      controls \t \n \v \f \r, the separators \x1c-\x1f, space, NEL, NBSP and
      the Unicode space separators. */
  predicate IsSpace(c: char)
  {
    var n := c as int;
    (9 <= n <= 13) || (28 <= n <= 32) || n == 0x85 || n == 0xA0 || n == 0x1680
    || (0x2000 <= n <= 0x200A) || n == 0x2028 || n == 0x2029 || n == 0x202F
    || n == 0x205F || n == 0x3000
  }

  /** Every character of s is whitespace (vacuously true of ""). */
  predicate Blank(s: string)
  {
    forall i :: 0 <= i < |s| ==> IsSpace(s[i])
  }

  /** s neither starts nor ends with whitespace. */
  predicate Trimmed(s: string)
  {
    s == [] || (!IsSpace(s[0]) && !IsSpace(s[|s| - 1]))
  }

  /** t is what remains of s once its leading and trailing whitespace is
      removed: a contiguous slice of s, with only whitespace around it, that
      neither starts nor ends with whitespace. */
  ghost predicate IsStripOf(t: string, s: string)
  {
    exists i :: 0 <= i <= |s| - |t| && t == s[i..i + |t|]
      && Blank(s[..i]) && Blank(s[i + |t|..])
      && Trimmed(t)
  }

  /** The end of the run of whitespace that starts at position i. */
  function SkipSpaces(s: string, i: nat): (n: nat)
    requires i <= |s|
    ensures i <= n <= |s|
    ensures forall k :: i <= k < n ==> IsSpace(s[k])
    ensures n == |s| || !IsSpace(s[n])
    decreases |s| - i
  {
    if i < |s| && IsSpace(s[i]) then SkipSpaces(s, i + 1) else i
  }

  /** The start of the run of whitespace that ends just before position j,
      looking no further back than lo. */
  function SkipSpacesBack(s: string, lo: nat, j: nat): (m: nat)
    requires lo <= j <= |s|
    ensures lo <= m <= j
    ensures forall k :: m <= k < j ==> IsSpace(s[k])
    ensures m == lo || !IsSpace(s[m - 1])
  {
    if j > lo && IsSpace(s[j - 1]) then SkipSpacesBack(s, lo, j - 1) else j
  }

  /** Python's s.strip(). */
  function Strip(s: string): (r: string)
    ensures IsStripOf(r, s)
    ensures r == [] <==> Blank(s)
  {
    var i := SkipSpaces(s, 0);
    var m := SkipSpacesBack(s, i, |s|);
    StripFacts(s, i, m);
    s[i..m]
  }

  /** The slice between the leading and the trailing whitespace is a strip
      of s, empty only when s is all whitespace. */
  lemma StripFacts(s: string, i: nat, m: nat)
    requires i <= m <= |s|
    requires forall k :: 0 <= k < i ==> IsSpace(s[k])
    requires i == |s| || !IsSpace(s[i])
    requires forall k :: m <= k < |s| ==> IsSpace(s[k])
    requires m == i || !IsSpace(s[m - 1])
    ensures IsStripOf(s[i..m], s)
    ensures s[i..m] == [] <==> Blank(s)
  {
    var r := s[i..m];
    assert Blank(s[..i]) by {
      forall k | 0 <= k < i ensures IsSpace(s[..i][k]) { assert s[..i][k] == s[k]; }
    }
    assert Blank(s[m..]) by {
      forall k | 0 <= k < |s| - m ensures IsSpace(s[m..][k]) { assert s[m..][k] == s[m + k]; }
    }
    assert Trimmed(r) by {
      if r != [] {
        assert r[0] == s[i] && r[|r| - 1] == s[m - 1];
      }
    }
    assert i + |r| == m && r == s[i..i + |r|];
    if Blank(s) {
      assert i == |s|;
    }
  }

  /** Stripping twice is stripping once. */
  lemma StripIdempotent(s: string)
    ensures Strip(Strip(s)) == Strip(s)
  {
    var t := Strip(s);
    assert Trimmed(t);
    StripTrimmed(t);
  }

  /** A string with no whitespace at either end strips to itself. */
  lemma StripTrimmed(t: string)
    requires Trimmed(t)
    ensures Strip(t) == t
  {
    assert SkipSpaces(t, 0) == 0;
    if t != [] {
      assert SkipSpacesBack(t, 0, |t|) == |t|;
    }
    assert t[0..|t|] == t;
  }

  /** " ".join(parts): the parts in order, one space between neighbours. */
  function JoinSpace(parts: seq<string>): (r: string)
    ensures parts == [] ==> r == ""
    ensures |parts| == 1 ==> r == parts[0]
  {
    if |parts| == 0 then ""
    else if |parts| == 1 then parts[0]
    else parts[0] + " " + JoinSpace(parts[1..])
  }

  /** Total length of a sequence of strings. */
  function TotalLength(parts: seq<string>): nat
  {
    if parts == [] then 0 else |parts[0]| + TotalLength(parts[1..])
  }

  /** The join holds every character of every part plus one separator
      between each pair of neighbours. */
  lemma {:induction false} JoinSpaceLength(parts: seq<string>)
    requires parts != []
    ensures |JoinSpace(parts)| == TotalLength(parts) + |parts| - 1
  {
    if |parts| > 1 {
      JoinSpaceLength(parts[1..]);
    }
  }

  /** Joining splits at any boundary into the two joins and one separator. */
  lemma {:induction false} JoinSpaceAppend(a: seq<string>, b: seq<string>)
    requires a != [] && b != []
    ensures JoinSpace(a + b) == JoinSpace(a) + " " + JoinSpace(b)
  {
    if |a| == 1 {
      assert (a + b)[1..] == b;
    } else {
      assert (a + b)[1..] == a[1..] + b;
      JoinSpaceAppend(a[1..], b);
    }
  }

  /** The join is blank exactly when every part is: the separators are
      spaces, so only the parts can contribute a non-space character. */
  lemma {:induction false} JoinSpaceBlank(parts: seq<string>)
    ensures Blank(JoinSpace(parts)) <==> forall k :: 0 <= k < |parts| ==> Blank(parts[k])
  {
    if |parts| > 1 {
      JoinSpaceBlank(parts[1..]);
      var rest := JoinSpace(parts[1..]);
      var r := parts[0] + " " + rest;
      assert r == JoinSpace(parts);
      if Blank(r) {
        assert Blank(parts[0]) by {
          forall i | 0 <= i < |parts[0]| ensures IsSpace(parts[0][i]) { assert r[i] == parts[0][i]; }
        }
        assert Blank(rest) by {
          forall i | 0 <= i < |rest| ensures IsSpace(rest[i]) { assert r[|parts[0]| + 1 + i] == rest[i]; }
        }
        forall k | 0 <= k < |parts| ensures Blank(parts[k]) {
          if k > 0 { assert parts[k] == parts[1..][k - 1]; }
        }
      }
      if forall k :: 0 <= k < |parts| ==> Blank(parts[k]) {
        assert Blank(parts[0]);
        assert forall k :: 0 <= k < |parts[1..]| ==> Blank(parts[1..][k]);
        forall i | 0 <= i < |r| ensures IsSpace(r[i]) {
          if i < |parts[0]| {
            assert r[i] == parts[0][i];
          } else if i > |parts[0]| {
            assert r[i] == rest[i - |parts[0]| - 1];
          }
        }
      }
    }
  }
}
