/** Python's `bytes.strip()` with no argument: removal of ASCII whitespace
    (space, tab, line feed, vertical tab, form feed, carriage return) from
    both ends of a byte string. */
module AsciiStrip {
  import opened Types

  predicate IsSpace(b: uint8)
  {
    b == 0x20 || (0x09 <= b <= 0x0d)
  }

  predicate AllSpace(s: Bytes)
  {
    forall i :: 0 <= i < |s| ==> IsSpace(s[i])
  }

  /** Neither end of `s` is whitespace (vacuously so for the empty string). */
  predicate Trimmed(s: Bytes)
  {
    |s| == 0 || (!IsSpace(s[0]) && !IsSpace(s[|s| - 1]))
  }

  /** `t` sits at offset `i` of `s` with only whitespace before and after it. */
  predicate Surrounds(s: Bytes, i: nat, t: Bytes)
  {
    i + |t| <= |s| && s[i..i + |t|] == t && AllSpace(s[..i]) && AllSpace(s[i + |t|..])
  }

  /** `s.lstrip()`. */
  function StripLeft(s: Bytes): Bytes
  {
    if |s| > 0 && IsSpace(s[0]) then StripLeft(s[1..]) else s
  }

  /** `s.rstrip()`. */
  function StripRight(s: Bytes): Bytes
  {
    if |s| > 0 && IsSpace(s[|s| - 1]) then StripRight(s[..|s| - 1]) else s
  }

  /** `s.strip()`. */
  function Strip(s: Bytes): Bytes
  {
    StripRight(StripLeft(s))
  }

  /** `lstrip()` keeps a suffix of its input, drops only whitespace, and
      stops at the first byte that is not whitespace. */
  lemma {:induction false} StripLeftIsSuffix(s: Bytes)
    ensures var r := StripLeft(s);
      && |r| <= |s| && r == s[|s| - |r|..]
      && AllSpace(s[..|s| - |r|])
      && (|r| > 0 ==> !IsSpace(r[0]))
    decreases |s|
  {
    if |s| > 0 && IsSpace(s[0]) {
      StripLeftIsSuffix(s[1..]);
      var r := StripLeft(s[1..]);
      assert s[..|s| - |r|] == [s[0]] + s[1..][..|s| - 1 - |r|];
    }
  }

  /** `rstrip()` keeps a prefix of its input, drops only whitespace, and
      stops at the last byte that is not whitespace. */
  lemma {:induction false} StripRightIsPrefix(s: Bytes)
    ensures var r := StripRight(s);
      && |r| <= |s| && r == s[..|r|]
      && AllSpace(s[|r|..])
      && (|r| > 0 ==> !IsSpace(r[|r| - 1]))
    decreases |s|
  {
    if |s| > 0 && IsSpace(s[|s| - 1]) {
      StripRightIsPrefix(s[..|s| - 1]);
      var r := StripRight(s[..|s| - 1]);
      assert s[|r|..] == s[..|s| - 1][|r|..] + [s[|s| - 1]];
    }
  }

  /** What `strip()` returns has no whitespace at either end and is a
      contiguous piece of its input, surrounded there by whitespace only. */
  lemma StripIsSurrounded(s: Bytes)
    ensures Trimmed(Strip(s))
    ensures exists i :: 0 <= i <= |s| - |Strip(s)| && Surrounds(s, i, Strip(s))
  {
    var l := StripLeft(s);
    var r := StripRight(l);
    StripLeftIsSuffix(s);
    StripRightIsPrefix(l);
    var i := |s| - |l|;
    if |r| > 0 {
      assert r[0] == l[0];
    }
    assert s[i..i + |r|] == l[..|r|] == r;
    assert s[i + |r|..] == l[|r|..];
    assert Surrounds(s, i, r);
  }

  lemma {:induction false} StripLeftDropsSpaces(w: Bytes, u: Bytes)
    requires AllSpace(w)
    ensures StripLeft(w + u) == StripLeft(u)
    decreases |w|
  {
    if |w| > 0 {
      assert (w + u)[1..] == w[1..] + u;
      StripLeftDropsSpaces(w[1..], u);
    } else {
      assert w + u == u;
    }
  }

  lemma {:induction false} StripRightDropsSpaces(u: Bytes, w: Bytes)
    requires AllSpace(w)
    ensures StripRight(u + w) == StripRight(u)
    decreases |w|
  {
    if |w| > 0 {
      assert (u + w)[..|u + w| - 1] == u + w[..|w| - 1];
      StripRightDropsSpaces(u, w[..|w| - 1]);
    } else {
      assert u + w == u;
    }
  }

  /** Stripping is determined by the surrounding whitespace: whatever
      whitespace surrounds a trimmed string, `strip()` returns that string. */
  lemma StripSurrounded(w1: Bytes, t: Bytes, w2: Bytes)
    requires AllSpace(w1) && AllSpace(w2) && Trimmed(t)
    ensures Strip(w1 + t + w2) == t
  {
    assert w1 + t + w2 == w1 + (t + w2);
    StripLeftDropsSpaces(w1, t + w2);
    if |t| > 0 {
      assert StripLeft(t + w2) == t + w2;
      StripRightDropsSpaces(t, w2);
      assert StripRight(t) == t;
    } else {
      assert t + w2 == w2;
      StripLeftDropsSpaces(w2, []);
      assert w2 + [] == w2;
    }
  }

  /** Stripping twice is the same as stripping once. */
  lemma StripIdempotent(s: Bytes)
    ensures Strip(Strip(s)) == Strip(s)
  {
    var t := Strip(s);
    StripIsSurrounded(s);
    assert [] + t + [] == t;
    StripSurrounded([], t, []);
  }
}
