/**
 * The filter the vessel list applies to station names: the filter box's text
 * is trimmed and lower-cased, and a name passes when its lower-cased form
 * contains it.
 */
module TextFilter {

  /** char.IsWhiteSpace: U+0009 to U+000D, U+0085, and the Unicode space, line and paragraph separators. */
  predicate IsWhiteSpace(c: char) {
    var n := c as int;
    || 0x09 <= n <= 0x0D
    || n == 0x20 || n == 0x85 || n == 0xA0 || n == 0x1680
    || 0x2000 <= n <= 0x200A
    || n == 0x2028 || n == 0x2029 || n == 0x202F || n == 0x205F || n == 0x3000
  }

  /** The longest suffix of s that does not start with white space. */
  function TrimStart(s: string): (r: string)
    ensures |r| <= |s| && r == s[|s| - |r|..]
    ensures forall i | 0 <= i < |s| - |r| :: IsWhiteSpace(s[i])
    ensures r == [] || !IsWhiteSpace(r[0])
  {
    if s != [] && IsWhiteSpace(s[0]) then TrimStart(s[1..]) else s
  }

  /** The longest prefix of s that does not end with white space. */
  function TrimEnd(s: string): (r: string)
    ensures |r| <= |s| && r == s[..|r|]
    ensures forall i | |r| <= i < |s| :: IsWhiteSpace(s[i])
    ensures r == [] || !IsWhiteSpace(r[|r| - 1])
  {
    if s != [] && IsWhiteSpace(s[|s| - 1]) then TrimEnd(s[..|s| - 1]) else s
  }

  /** t is spelt by the characters of s from index i on. */
  predicate OccursAt(s: string, t: string, i: int) {
    0 <= i <= |s| - |t| && s[i..i + |t|] == t
  }

  /** String.Trim(): s without its leading and trailing white space. */
  function Trim(s: string): (r: string)
    ensures exists a, b | 0 <= a <= b <= |s| ::
      && r == s[a..b]
      && (forall i | 0 <= i < a :: IsWhiteSpace(s[i]))
      && (forall i | b <= i < |s| :: IsWhiteSpace(s[i]))
    ensures r == [] || (!IsWhiteSpace(r[0]) && !IsWhiteSpace(r[|r| - 1]))
    ensures r == [] <==> forall i | 0 <= i < |s| :: IsWhiteSpace(s[i])
  {
    var t := TrimStart(s);
    var r := TrimEnd(t);
    var a := |s| - |t|;
    assert s[a..a + |r|] == r;
    assert forall i | a + |r| <= i < |s| :: IsWhiteSpace(s[i]) by {
      forall i | a + |r| <= i < |s| ensures IsWhiteSpace(s[i]) {
        assert s[i] == t[i - a];
      }
    }
    assert r == [] ==> t == [];
    r
  }

  /** Char.ToLowerInvariant on the ASCII letters; every other character is its own lower case here. */
  function LowerChar(c: char): char {
    if 'A' <= c <= 'Z' then (c as int + 32) as char else c
  }

  /** String.ToLowerInvariant(). */
  function ToLowerInvariant(s: string): (r: string)
    ensures |r| == |s|
  {
    seq(|s|, i requires 0 <= i < |s| => LowerChar(s[i]))
  }

  /** An occurrence in the tail of s is an occurrence in s one position further on. */
  lemma OccursShift(s: string, t: string, i: nat)
    requires s != []
    ensures OccursAt(s[1..], t, i) <==> OccursAt(s, t, i + 1)
  {
    if 0 <= i <= |s| - 1 - |t| {
      assert s[1..][i..i + |t|] == s[i + 1..i + 1 + |t|];
    }
  }

  /** String.Contains(t): t occurs somewhere in s. */
  function Contains(s: string, t: string): (r: bool)
    ensures r <==> exists i :: OccursAt(s, t, i)
    decreases |s|
  {
    if |t| > |s| then false
    else if t <= s then
      assert OccursAt(s, t, 0);
      true
    else
      var r := Contains(s[1..], t);
      assert r ==> exists i :: OccursAt(s, t, i) by {
        if r {
          var i :| OccursAt(s[1..], t, i);
          OccursShift(s, t, i);
        }
      }
      assert (exists i :: OccursAt(s, t, i)) ==> r by {
        if exists i :: OccursAt(s, t, i) {
          var i :| OccursAt(s, t, i);
          assert i != 0;
          OccursShift(s, t, i - 1);
        }
      }
      r
  }

  /**
   * Whether the vessel named `name` stays in the list under the filter box's
   * text: an empty filter keeps every name; otherwise the lower-cased name
   * must contain the trimmed, lower-cased filter.
   */
  function Matches(name: string, filter: string): (r: bool)
    ensures r <==> filter == [] || exists i :: OccursAt(ToLowerInvariant(name), ToLowerInvariant(Trim(filter)), i)
  {
    filter == [] || Contains(ToLowerInvariant(name), ToLowerInvariant(Trim(filter)))
  }

  /** A filter made only of white space keeps every name. */
  lemma WhiteSpaceFilterKeepsAll(name: string, filter: string)
    requires forall i | 0 <= i < |filter| :: IsWhiteSpace(filter[i])
    ensures Matches(name, filter)
  {
    if filter != [] {
      var n := ToLowerInvariant(name);
      assert ToLowerInvariant(Trim(filter)) == [];
      assert OccursAt(n, [], 0);
    }
  }

  /** Lower-casing never turns white space into something else, nor the reverse. */
  lemma LowerCharKeepsWhiteSpace(c: char)
    ensures IsWhiteSpace(LowerChar(c)) == IsWhiteSpace(c)
  {
  }

  lemma {:induction false} TrimStartLower(s: string)
    ensures TrimStart(ToLowerInvariant(s)) == ToLowerInvariant(TrimStart(s))
  {
    if s != [] {
      LowerCharKeepsWhiteSpace(s[0]);
      assert ToLowerInvariant(s)[1..] == ToLowerInvariant(s[1..]);
      TrimStartLower(s[1..]);
    }
  }

  lemma {:induction false} TrimEndLower(s: string)
    ensures TrimEnd(ToLowerInvariant(s)) == ToLowerInvariant(TrimEnd(s))
  {
    if s != [] {
      LowerCharKeepsWhiteSpace(s[|s| - 1]);
      assert ToLowerInvariant(s)[..|s| - 1] == ToLowerInvariant(s[..|s| - 1]);
      TrimEndLower(s[..|s| - 1]);
    }
  }

  lemma LowerIdempotent(s: string)
    ensures ToLowerInvariant(ToLowerInvariant(s)) == ToLowerInvariant(s)
  {
  }

  /**
   * The filter ignores case: two names that lower-case alike, under two
   * filters that lower-case alike, are kept or dropped together.
   */
  lemma MatchesIgnoresCase(name1: string, name2: string, filter1: string, filter2: string)
    requires ToLowerInvariant(name1) == ToLowerInvariant(name2)
    requires ToLowerInvariant(filter1) == ToLowerInvariant(filter2)
    ensures Matches(name1, filter1) == Matches(name2, filter2)
  {
    TrimStartLower(filter1);
    TrimStartLower(filter2);
    TrimEndLower(TrimStart(filter1));
    TrimEndLower(TrimStart(filter2));
    LowerIdempotent(Trim(filter1));
    LowerIdempotent(Trim(filter2));
  }

  lemma TrimIdempotent(s: string)
    ensures Trim(Trim(s)) == Trim(s)
  {
    var t := TrimStart(s);
    var r := TrimEnd(t);
    assert TrimStart(r) == r;
  }

  /** White space around the filter text makes no difference to what it keeps. */
  lemma MatchesIgnoresSurroundingWhiteSpace(name: string, filter: string)
    ensures Matches(name, filter) == Matches(name, Trim(filter))
  {
    if Trim(filter) == [] {
      WhiteSpaceFilterKeepsAll(name, filter);
    } else {
      TrimIdempotent(filter);
    }
  }
}
