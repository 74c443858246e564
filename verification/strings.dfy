/** Character-level building blocks of the grid renderer: repetition and
    padding of strings, concatenation of a sequence of strings, and Go's
    ordering on strings. Strings are ASCII, so one byte is one character. */
module Strings {

  /** `strings.Repeat` for a one-character string. */
  function Repeat(c: char, n: nat): (r: string)
    ensures |r| == n
    ensures forall i :: 0 <= i < n ==> r[i] == c
  {
    seq(n, _ => c)
  }

  /** What `fmt` does with the verb `%-Ns` (N = w) on an ASCII string: the
      string left-justified and space-padded on the right up to w
      characters; a longer string is never cut. With w == 0 the format reads
      `%-0s`, where `0` is a flag and no width is set, which pads nothing as
      well. */
  function Pad(s: string, w: nat): (r: string)
    ensures |r| == if |s| < w then w else |s|
    ensures r[..|s|] == s
    ensures forall i :: |s| <= i < |r| ==> r[i] == ' '
  {
    if |s| < w then s + Repeat(' ', w - |s|) else s
  }

  /** The strings of `ss` written one after the other. */
  function Concat(ss: seq<string>): string
  {
    if |ss| == 0 then "" else ss[0] + Concat(ss[1..])
  }

  lemma {:induction false} ConcatAppend(a: seq<string>, b: seq<string>)
    ensures Concat(a + b) == Concat(a) + Concat(b)
  {
    if |a| == 0 {
      assert a + b == b;
    } else {
      assert (a + b)[1..] == a[1..] + b;
      ConcatAppend(a[1..], b);
    }
  }

  /** Appending one string to a growing buffer, as `buf += s` does. */
  lemma ConcatSnoc(ss: seq<string>, i: nat)
    requires i < |ss|
    ensures Concat(ss[..i + 1]) == Concat(ss[..i]) + ss[i]
  {
    assert ss[..i + 1] == ss[..i] + [ss[i]];
    ConcatAppend(ss[..i], [ss[i]]);
    assert Concat([ss[i]]) == ss[i] + Concat([]);
  }

  /** A buffer holding `lead` and the first i pieces, grown by piece i. */
  lemma AppendPiece(lead: string, ss: seq<string>, i: nat)
    requires i < |ss|
    ensures (lead + Concat(ss[..i])) + ss[i] == lead + Concat(ss[..i + 1])
  {
    ConcatSnoc(ss, i);
  }

  /** A prefix grown by the next element. */
  lemma PrefixSnoc<T>(s: seq<T>, i: nat)
    requires i < |s|
    ensures s[..i + 1] == s[..i] + [s[i]]
  {
  }

  /** `s` overwritten by `t` up to i, then by `t[i]` at i, is overwritten up
      to i + 1; writing a value already there changes nothing. */
  lemma SpliceStep<T>(t: seq<T>, s: seq<T>, i: nat)
    requires |t| == |s| && i < |t|
    ensures (t[..i] + s[i..])[i := t[i]] == t[..i + 1] + s[i + 1..]
    ensures t[i] == s[i] ==> t[..i] + s[i..] == t[..i + 1] + s[i + 1..]
  {
  }

  /** The elements of the groups in `p`, group after group. */
  function Flatten<T>(p: seq<seq<T>>): seq<T>
  {
    if |p| == 0 then [] else Flatten(p[..|p| - 1]) + p[|p| - 1]
  }

  lemma FlattenSnoc<T>(p: seq<seq<T>>, i: nat)
    requires i < |p|
    ensures Flatten(p[..i + 1]) == Flatten(p[..i]) + p[i]
  {
    assert p[..i + 1][..i] == p[..i];
  }

  /** Groups of two: group k lands at positions 2k and 2k + 1. */
  lemma {:induction false} FlattenPairs<T>(p: seq<seq<T>>)
    requires forall k :: 0 <= k < |p| ==> |p[k]| == 2
    ensures |Flatten(p)| == 2 * |p|
    ensures forall k :: 0 <= k < |p| ==> Flatten(p)[2 * k] == p[k][0] && Flatten(p)[2 * k + 1] == p[k][1]
  {
    if |p| > 0 {
      var init := p[..|p| - 1];
      FlattenPairs(init);
      forall k | 0 <= k < |p|
        ensures Flatten(p)[2 * k] == p[k][0] && Flatten(p)[2 * k + 1] == p[k][1]
      {
        if k < |init| {
          assert init[k] == p[k];
        }
      }
    }
  }

  /** Element i of the middle run, once two items lead it. */
  lemma MiddleAt<T>(a: T, b: T, mid: seq<T>, d: T, i: nat)
    requires i < |mid|
    ensures ([a, b] + mid + [d])[2 + i] == mid[i]
  {
  }

  /** Two leading pieces, a middle run and one trailing piece. */
  lemma ConcatFrame(a: string, b: string, mid: seq<string>, d: string)
    ensures Concat([a, b] + mid + [d]) == a + b + Concat(mid) + d
  {
    ConcatAppend([a, b] + mid, [d]);
    ConcatAppend([a, b], mid);
    assert Concat([a, b]) == a + (b + Concat([]));
    assert Concat([d]) == d + Concat([]);
  }

  lemma {:induction false} ConcatLength(ss: seq<string>, len: nat)
    requires forall i :: 0 <= i < |ss| ==> |ss[i]| == len
    ensures |Concat(ss)| == |ss| * len
  {
    if |ss| > 0 {
      ConcatLength(ss[1..], len);
      assert |ss| * len == len + (|ss| - 1) * len;
    }
  }

  /** When every piece has length `len`, the concatenation has length
      |ss| * len and piece i occupies positions [i * len, (i + 1) * len). */
  lemma {:induction false} ConcatUniform(ss: seq<string>, len: nat)
    requires forall i :: 0 <= i < |ss| ==> |ss[i]| == len
    ensures |Concat(ss)| == |ss| * len
    ensures forall i :: 0 <= i < |ss| ==> i * len + len <= |Concat(ss)| && Concat(ss)[i * len .. i * len + len] == ss[i]
  {
    ConcatLength(ss, len);
    if |ss| > 0 {
      var tail := ss[1..];
      ConcatUniform(tail, len);
      var c := Concat(ss);
      assert c == ss[0] + Concat(tail);
      forall i | 0 <= i < |ss|
        ensures i * len + len <= |c| && c[i * len .. i * len + len] == ss[i]
      {
        if i == 0 {
          assert c[..len] == ss[0];
        } else {
          var j := i - 1;
          assert i * len == len + j * len;
          assert j * len + len <= |tail| * len;
          assert c[i * len .. i * len + len] == Concat(tail)[j * len .. j * len + len];
          assert tail[j] == ss[i];
        }
      }
    }
  }

  /** Go's `<` on strings: byte-wise lexicographic order, a proper prefix
      coming first. */
  predicate StrLess(a: string, b: string)
  {
    if |a| == 0 then |b| > 0
    else if |b| == 0 then false
    else if a[0] != b[0] then a[0] < b[0]
    else StrLess(a[1..], b[1..])
  }

  /** The usual reading of lexicographic order: after a common prefix of
      length k, either `a` ends while `b` goes on, or the first differing
      character of `a` is smaller. */
  ghost predicate LexBefore(a: string, b: string, k: nat)
  {
    && k <= |a| && k <= |b|
    && a[..k] == b[..k]
    && ((k == |a| && k < |b|) || (k < |a| && k < |b| && a[k] < b[k]))
  }

  /** A common prefix followed by a smaller character, or by the end of
      `a` only, puts `a` first in Go's order. */
  lemma {:induction false} LexBeforeStrLess(a: string, b: string, k: nat)
    requires LexBefore(a, b, k)
    ensures StrLess(a, b)
  {
    if k > 0 {
      assert a[0] == a[..k][0] && b[0] == b[..k][0];
      assert a[1..][..k - 1] == a[..k][1..] && b[1..][..k - 1] == b[..k][1..];
      LexBeforeStrLess(a[1..], b[1..], k - 1);
    }
  }

  lemma {:induction false} StrLessIsLexicographic(a: string, b: string)
    ensures StrLess(a, b) <==> exists k: nat :: LexBefore(a, b, k)
  {
    if StrLess(a, b) {
      StrLessWitness(a, b);
    }
    if k: nat :| LexBefore(a, b, k) {
      LexBeforeStrLess(a, b, k);
    }
  }

  /** The position at which `a` and `b` part when `a` comes first. */
  lemma {:induction false} StrLessWitness(a: string, b: string)
    requires StrLess(a, b)
    ensures exists k: nat :: LexBefore(a, b, k)
  {
    if |a| == 0 || a[0] != b[0] {
      assert LexBefore(a, b, 0);
    } else {
      StrLessWitness(a[1..], b[1..]);
      var k: nat :| LexBefore(a[1..], b[1..], k);
      assert a[..k + 1] == [a[0]] + a[1..][..k];
      assert b[..k + 1] == [b[0]] + b[1..][..k];
      assert LexBefore(a, b, k + 1);
    }
  }

  lemma {:induction false} StrLessIrreflexive(a: string)
    ensures !StrLess(a, a)
  {
    if |a| > 0 {
      StrLessIrreflexive(a[1..]);
    }
  }

  lemma {:induction false} StrLessTransitive(a: string, b: string, c: string)
    requires StrLess(a, b) && StrLess(b, c)
    ensures StrLess(a, c)
  {
    if |a| > 0 && |b| > 0 && |c| > 0 && a[0] == b[0] && b[0] == c[0] {
      StrLessTransitive(a[1..], b[1..], c[1..]);
    }
  }

  /** Any two different strings are ordered one way or the other. */
  lemma {:induction false} StrLessTotal(a: string, b: string)
    ensures a == b || StrLess(a, b) || StrLess(b, a)
  {
    if |a| > 0 && |b| > 0 && a[0] == b[0] {
      StrLessTotal(a[1..], b[1..]);
      if a[1..] == b[1..] {
        assert a == [a[0]] + a[1..];
        assert b == [b[0]] + b[1..];
      }
    }
  }
}
