/**
 * The three operations of Python's `str` that the origin gate relies on:
 * `s.split(sep)`, `s.strip()` (no argument: strip whitespace) and
 * `s.startswith(p)`.
 */
module StrOps {

  /** Python's `str.isspace` for one character: the set `str.strip()` removes. */
  predicate IsSpace(c: char) {
    var n := c as int;
    (9 <= n <= 13) || (28 <= n <= 32) || n == 0x85 || n == 0xA0 || n == 0x1680
    || (0x2000 <= n <= 0x200A) || n == 0x2028 || n == 0x2029 || n == 0x202F
    || n == 0x205F || n == 0x3000
  }

  predicate AllSpace(s: string) {
    forall k :: 0 <= k < |s| ==> IsSpace(s[k])
  }

  /** `s.startswith(p)`: the empty prefix is a prefix of everything. */
  predicate IsPrefix(p: string, s: string) {
    |p| <= |s| && s[..|p|] == p
  }

  // ---------------------------------------------------------------------------
  // strip: as CPython does it, by finding the first and last characters kept

  /** The number of whitespace characters in `s` from index `i` on, up to
      the first other character. */
  function SpacesFrom(s: string, i: nat): (n: nat)
    requires i <= |s|
    ensures i + n <= |s|
    decreases |s| - i
  {
    if i < |s| && IsSpace(s[i]) then 1 + SpacesFrom(s, i + 1) else 0
  }

  /** The number of whitespace characters in `s[lo..hi]` counted backwards
      from `hi`, up to the first other character. */
  function SpacesBefore(s: string, lo: nat, hi: nat): (n: nat)
    requires lo <= hi <= |s|
    ensures n <= hi - lo
  {
    if lo < hi && IsSpace(s[hi - 1]) then 1 + SpacesBefore(s, lo, hi - 1) else 0
  }

  /** The index of the first character `strip` keeps (`|s|` if none). */
  function StripStart(s: string): (i: nat)
    ensures i <= |s|
  {
    SpacesFrom(s, 0)
  }

  /** The index just past the last character `strip` keeps. */
  function StripEnd(s: string): (j: nat)
    ensures StripStart(s) <= j <= |s|
  {
    |s| - SpacesBefore(s, StripStart(s), |s|)
  }

  /** `s.strip()`. */
  function Strip(s: string): string {
    s[StripStart(s)..StripEnd(s)]
  }

  lemma {:induction false} SpacesFromSpec(s: string, i: nat)
    requires i <= |s|
    ensures var n := SpacesFrom(s, i);
      (forall k :: i <= k < i + n ==> IsSpace(s[k])) && (i + n < |s| ==> !IsSpace(s[i + n]))
    decreases |s| - i
  {
    if i < |s| && IsSpace(s[i]) {
      SpacesFromSpec(s, i + 1);
    }
  }

  lemma {:induction false} SpacesBeforeSpec(s: string, lo: nat, hi: nat)
    requires lo <= hi <= |s|
    ensures var n := SpacesBefore(s, lo, hi);
      (forall k :: hi - n <= k < hi ==> IsSpace(s[k])) && (lo < hi - n ==> !IsSpace(s[hi - n - 1]))
  {
    if lo < hi && IsSpace(s[hi - 1]) {
      SpacesBeforeSpec(s, lo, hi - 1);
    }
  }

  /** What `strip` keeps is the piece `s[StripStart(s)..StripEnd(s)]`; it
      has no whitespace at either end, and everything dropped on either side
      of it is whitespace. */
  lemma StripIsTrimmedFactor(s: string)
    ensures var i := StripStart(s); var j := StripEnd(s);
      Strip(s) == s[i..j]
      && (forall k :: 0 <= k < i ==> IsSpace(s[k]))
      && (forall k :: j <= k < |s| ==> IsSpace(s[k]))
      && (i < j ==> !IsSpace(s[i]) && !IsSpace(s[j - 1]))
  {
    SpacesFromSpec(s, 0);
    SpacesBeforeSpec(s, StripStart(s), |s|);
  }

  /** `strip` only removes characters. */
  lemma StripKeepsOnlyOwnChars(s: string, c: char)
    requires c !in s
    ensures c !in Strip(s)
  {
    var i, j := StripStart(s), StripEnd(s);
    forall k | 0 <= k < j - i ensures Strip(s)[k] != c {
      assert Strip(s)[k] == s[i + k];
    }
  }

  /** A string with no whitespace at either end is its own stripped form. */
  lemma StripUnpadded(s: string)
    requires s == [] || (!IsSpace(s[0]) && !IsSpace(s[|s| - 1]))
    ensures Strip(s) == s
  {
    assert StripStart(s) == 0;
    assert s[0..|s|] == s;
  }

  /** Stripping twice is stripping once. */
  lemma StripIdempotent(s: string)
    ensures Strip(Strip(s)) == Strip(s)
  {
    StripIsTrimmedFactor(s);
    var r := Strip(s);
    if r != [] {
      assert r[0] == s[StripStart(s)];
      assert r[|r| - 1] == s[StripEnd(s) - 1];
    }
    StripUnpadded(r);
  }

  /** `s.strip()` is empty exactly when `s` is all whitespace. */
  lemma StripEmptyIff(s: string)
    ensures Strip(s) == [] <==> AllSpace(s)
  {
    StripIsTrimmedFactor(s);
    if AllSpace(s) && StripStart(s) < |s| {
      assert IsSpace(s[StripStart(s)]);
    }
  }

  // ---------------------------------------------------------------------------
  // split

  /** `s.split(sep)` for a one-character separator: the pieces between the
      separators, in order; the empty string gives one empty piece. */
  function Split(s: string, sep: char): (r: seq<string>)
    ensures |r| >= 1
  {
    if s == [] then [[]]
    else
      var rest := Split(s[1..], sep);
      if s[0] == sep then [[]] + rest else [[s[0]] + rest[0]] + rest[1..]
  }

  /** No piece of a split holds the separator. */
  lemma {:induction false} SplitPiecesLackSep(s: string, sep: char)
    ensures forall i :: 0 <= i < |Split(s, sep)| ==> sep !in Split(s, sep)[i]
  {
    if s != [] {
      SplitPiecesLackSep(s[1..], sep);
      var rest := Split(s[1..], sep);
      if s[0] != sep {
        var h := [s[0]] + rest[0];
        assert sep !in h by {
          forall k | 0 <= k < |h| ensures h[k] != sep {
            if k > 0 { assert h[k] == rest[0][k - 1]; }
          }
        }
        assert Split(s, sep) == [h] + rest[1..];
        forall i | 0 < i < |Split(s, sep)| ensures sep !in Split(s, sep)[i] {
          assert Split(s, sep)[i] == rest[i];
        }
      } else {
        assert Split(s, sep) == [[]] + rest;
        forall i | 0 < i < |Split(s, sep)| ensures sep !in Split(s, sep)[i] {
          assert Split(s, sep)[i] == rest[i - 1];
        }
      }
    }
  }

  /** `sep.join(pieces)`, the inverse of `Split`. */
  function Join(pieces: seq<string>, sep: char): string
    requires |pieces| >= 1
  {
    if |pieces| == 1 then pieces[0] else pieces[0] + [sep] + Join(pieces[1..], sep)
  }

  /** A string without the separator is one piece. */
  lemma {:induction false} SplitNoSep(s: string, sep: char)
    requires sep !in s
    ensures Split(s, sep) == [s]
  {
    if s != [] {
      assert sep !in s[1..] by {
        forall k | 0 <= k < |s[1..]| ensures s[1..][k] != sep { assert s[1..][k] == s[k + 1]; }
      }
      SplitNoSep(s[1..], sep);
      assert [s[0]] + s[1..] == s;
    }
  }

  /** Splitting a string with a known first character. */
  lemma SplitCons(c: char, t: string, sep: char)
    ensures Split([c] + t, sep) ==
      if c == sep then [[]] + Split(t, sep)
      else [[c] + Split(t, sep)[0]] + Split(t, sep)[1..]
  {
    assert ([c] + t)[0] == c && ([c] + t)[1..] == t;
  }

  lemma ExtendFirstPiece(c: char, x: seq<string>, y: seq<string>)
    requires |x| >= 1
    ensures [[c] + (x + y)[0]] + (x + y)[1..] == ([[c] + x[0]] + x[1..]) + y
  {
    assert (x + y)[0] == x[0];
    assert (x + y)[1..] == x[1..] + y;
  }

  /** Splitting at a separator splits the two sides independently. */
  lemma {:induction false} SplitConcat(a: string, b: string, sep: char)
    ensures Split(a + [sep] + b, sep) == Split(a, sep) + Split(b, sep)
  {
    if a == [] {
      assert a + [sep] + b == [sep] + b;
      SplitCons(sep, b, sep);
    } else {
      var a' := a[1..];
      assert a == [a[0]] + a';
      assert a + [sep] + b == [a[0]] + (a' + [sep] + b);
      SplitConcat(a', b, sep);
      SplitCons(a[0], a' + [sep] + b, sep);
      SplitCons(a[0], a', sep);
      if a[0] == sep {
        assert [[]] + (Split(a', sep) + Split(b, sep)) == ([[]] + Split(a', sep)) + Split(b, sep);
      } else {
        ExtendFirstPiece(a[0], Split(a', sep), Split(b, sep));
      }
    }
  }

  /** Splitting what `Join` built gives back the pieces. */
  lemma {:induction false} SplitJoin(pieces: seq<string>, sep: char)
    requires |pieces| >= 1
    requires forall i :: 0 <= i < |pieces| ==> sep !in pieces[i]
    ensures Split(Join(pieces, sep), sep) == pieces
  {
    if |pieces| == 1 {
      SplitNoSep(pieces[0], sep);
    } else {
      SplitJoin(pieces[1..], sep);
      SplitConcat(pieces[0], Join(pieces[1..], sep), sep);
      SplitNoSep(pieces[0], sep);
      assert [pieces[0]] + pieces[1..] == pieces;
    }
  }

  /** Joining the pieces of a split with the separator gives back the string. */
  lemma {:induction false} JoinSplit(s: string, sep: char)
    ensures Join(Split(s, sep), sep) == s
  {
    if s != [] {
      JoinSplit(s[1..], sep);
      var rest := Split(s[1..], sep);
      if s[0] == sep {
        assert Split(s, sep)[1..] == rest;
        assert [s[0]] + s[1..] == s;
      } else {
        var r := Split(s, sep);
        if |rest| == 1 {
          assert r == [[s[0]] + rest[0]];
          assert [s[0]] + s[1..] == s;
        } else {
          assert r[1..] == rest[1..];
          assert Join(rest, sep) == rest[0] + [sep] + Join(rest[1..], sep);
          assert s == [s[0]] + s[1..];
        }
      }
    }
  }
}
